/**
 The table-driven CRC-32 of the firmware, proved equal to the bit-at-a-time
 division it abbreviates, and the error-detection guarantee that division gives:
 every burst of at most 32 bits is caught, and 32 is the exact limit.

 A 32-bit register is its 32 bits, least significant first, which is also the
 order in which CRC-32 consumes the bits of a byte.
 */
module Crc32 {
  import opened Arithmetic

  type Word = w: seq<bool> | |w| == 32 witness seq(32, _ => false)

  newtype Byte = x: int | 0 <= x < 256

  // ----- Machine words -----

  function Zeros(n: nat): (bits: seq<bool>)
    ensures |bits| == n
  {
    seq(n, _ => false)
  }

  function Xor(x: Word, y: Word): (r: Word)
  {
    seq(32, i requires 0 <= i < 32 => x[i] != y[i])
  }

  function ShiftRight(x: Word, n: nat): (r: Word)
    requires n <= 32
  {
    x[n..] + Zeros(n)
  }

  function Complement(x: Word): (r: Word)
  {
    seq(32, i requires 0 <= i < 32 => !x[i])
  }

  /** The `n` low bits of `v`. */
  function ToBits(v: nat, n: nat): (bits: seq<bool>)
    ensures |bits| == n
    decreases n
  {
    if n == 0 then [] else [v % 2 == 1] + ToBits(v / 2, n - 1)
  }

  function ToNat(bits: seq<bool>): nat {
    if bits == [] then 0 else Value(bits[0]) + 2 * ToNat(bits[1..])
  }

  function Value(b: bool): nat {
    if b then 1 else 0
  }

  lemma {:induction false} ToNatBound(bits: seq<bool>)
    requires |bits| == 8
    ensures ToNat(bits) < 256
  {
    assert ToNat(bits[8..]) == 0;
    assert forall k {:trigger bits[k..]} :: 0 <= k < 8 ==> bits[k..][1..] == bits[k + 1..];
    assert ToNat(bits[7..]) <= 1;
    assert ToNat(bits[6..]) <= 3;
    assert ToNat(bits[5..]) <= 7;
    assert ToNat(bits[4..]) <= 15;
    assert ToNat(bits[3..]) <= 31;
    assert ToNat(bits[2..]) <= 63;
    assert ToNat(bits[1..]) <= 127;
    assert bits[0..] == bits;
  }

  lemma {:induction false} ToBitsOfZero(n: nat)
    ensures ToBits(0, n) == Zeros(n)
    decreases n
  {
    if n > 0 {
      ToBitsOfZero(n - 1);
    }
  }

  lemma {:induction false} ToBitsWiden(bits: seq<bool>, n: nat)
    requires |bits| <= n
    ensures ToBits(ToNat(bits), n) == bits + Zeros(n - |bits|)
    decreases n
  {
    if bits == [] {
      ToBitsOfZero(n);
    } else {
      assert ToNat(bits) / 2 == ToNat(bits[1..]);
      ToBitsWiden(bits[1..], n - 1);
    }
  }

  // ----- The reference: polynomial division, one message bit at a time -----

  /** The register shifts out its low bit, so a generator must fill the top one. */
  type Generator = g: Word | g[31] witness seq(32, _ => true)

  const ZERO: Word := Zeros(32)

  const ONES: Word := Complement(ZERO)

  /**
   The width is written `|ZERO|`, as widths of 8 are `|Zeros(8)|` and 31 is a
   parameter below: the solver would unroll recursive functions of literals.
   */
  function ToWord(v: nat): Word {
    ToBits(v, |ZERO|)
  }

  /** Divide by the polynomial once: the register moves one place to the right. */
  function Shift(g: Generator, c: Word): (r: Word)
  {
    if c[0] then Xor(ShiftRight(c, 1), g) else ShiftRight(c, 1)
  }

  function ShiftN(g: Generator, c: Word, n: nat): Word
    decreases n
  {
    if n == 0 then c else ShiftN(g, Shift(g, c), n - 1)
  }

  /** Up to 32 bits as one word. */
  function Pack(bits: seq<bool>): (w: Word)
    requires |bits| <= 32
  {
    bits + Zeros(32 - |bits|)
  }

  /** Run the register over a message given bit by bit. */
  function Feed(g: Generator, s: Word, bits: seq<bool>): Word
    decreases bits
  {
    if bits == [] then s else Feed(g, Shift(g, Xor(s, Pack([bits[0]]))), bits[1..])
  }

  function ByteBits(b: Byte): (bits: seq<bool>)
    ensures |bits| == 8
  {
    ToBits(b as int, |Zeros(8)|)
  }

  function Bits(data: seq<Byte>): (bits: seq<bool>)
    ensures |bits| == 8 * |data|
  {
    if data == [] then [] else ByteBits(data[0]) + Bits(data[1..])
  }

  /** The CRC-32 of `data` by definition, with no table. */
  function Reference(g: Generator, data: seq<Byte>): Word {
    Complement(Feed(g, ONES, Bits(data)))
  }

  // ----- Algebra of the register -----

  /** Division is linear: the register of a sum is the sum of the registers. */
  lemma ShiftXor(g: Generator, x: Word, y: Word)
    ensures Shift(g, Xor(x, y)) == Xor(Shift(g, x), Shift(g, y))
  {
  }

  lemma {:induction false} ShiftNXor(g: Generator, x: Word, y: Word, n: nat)
    ensures ShiftN(g, Xor(x, y), n) == Xor(ShiftN(g, x, n), ShiftN(g, y, n))
    decreases n
  {
    if n > 0 {
      ShiftXor(g, x, y);
      ShiftNXor(g, Shift(g, x), Shift(g, y), n - 1);
    }
  }

  lemma ShiftInjective(g: Generator, x: Word, y: Word)
    requires Shift(g, x) == Shift(g, y)
    ensures x == y
  {
    var a, b := Shift(g, x), Shift(g, y);
    assert a[31] == x[0] && b[31] == y[0];
    forall i | 1 <= i < 32
      ensures x[i] == y[i]
    {
      assert a[i - 1] == (x[i] != (x[0] && g[i - 1]));
      assert b[i - 1] == (y[i] != (y[0] && g[i - 1]));
    }
  }

  lemma {:induction false} ShiftNInjective(g: Generator, x: Word, y: Word, n: nat)
    requires ShiftN(g, x, n) == ShiftN(g, y, n)
    ensures x == y
    decreases n
  {
    if n > 0 {
      ShiftNInjective(g, Shift(g, x), Shift(g, y), n - 1);
      ShiftInjective(g, x, y);
    }
  }

  lemma {:induction false} ShiftNZero(g: Generator, n: nat)
    ensures ShiftN(g, ZERO, n) == ZERO
    decreases n
  {
    if n > 0 {
      assert Shift(g, ZERO) == ZERO;
      ShiftNZero(g, n - 1);
    }
  }

  lemma XorCancel(x: Word, y: Word, z: Word)
    requires Xor(x, z) == Xor(y, z)
    ensures x == y
  {
    forall i | 0 <= i < 32
      ensures x[i] == y[i]
    {
      assert Xor(x, z)[i] == Xor(y, z)[i];
    }
  }

  lemma {:induction false} FeedConcat(g: Generator, s: Word, u: seq<bool>, v: seq<bool>)
    ensures Feed(g, s, u + v) == Feed(g, Feed(g, s, u), v)
    decreases u
  {
    if u == [] {
      assert u + v == v;
    } else {
      assert (u + v)[1..] == u[1..] + v;
      FeedConcat(g, Shift(g, Xor(s, Pack([u[0]]))), u[1..], v);
    }
  }

  lemma {:induction false} FeedInjectiveInState(g: Generator, s: Word, t: Word, bits: seq<bool>)
    requires Feed(g, s, bits) == Feed(g, t, bits)
    ensures s == t
    decreases bits
  {
    if bits != [] {
      var b := Pack([bits[0]]);
      FeedInjectiveInState(g, Shift(g, Xor(s, b)), Shift(g, Xor(t, b)), bits[1..]);
      ShiftInjective(g, Xor(s, b), Xor(t, b));
      XorCancel(s, t, b);
    }
  }

  lemma ShiftPeel(g: Generator, s: Word, bits: seq<bool>)
    requires 0 < |bits| <= 32
    ensures Shift(g, Xor(s, Pack(bits))) == Xor(Shift(g, Xor(s, Pack([bits[0]]))), Pack(bits[1..]))
  {
    var x, y := Xor(s, Pack(bits)), Xor(s, Pack([bits[0]]));
    var p := Pack(bits[1..]);
    assert x[0] == y[0];
    assert forall i :: 0 <= i < 31 ==> x[i + 1] == (y[i + 1] != p[i]);
  }

  /** Up to 32 message bits act like one word mixed in ahead of time. */
  lemma {:induction false} FeedIsShift(g: Generator, s: Word, bits: seq<bool>)
    requires |bits| <= 32
    ensures Feed(g, s, bits) == ShiftN(g, Xor(s, Pack(bits)), |bits|)
    decreases bits
  {
    if bits == [] {
      assert Xor(s, Pack(bits)) == s;
    } else {
      var t := Shift(g, Xor(s, Pack([bits[0]])));
      FeedIsShift(g, t, bits[1..]);
      ShiftPeel(g, s, bits);
    }
  }

  // ----- The byte-wise table step is eight bit steps -----

  lemma {:induction false} ShiftNHigh(g: Generator, c: Word, n: nat)
    requires n <= 32 && forall i :: 0 <= i < n ==> !c[i]
    ensures ShiftN(g, c, n) == ShiftRight(c, n)
    decreases n
  {
    if n > 0 {
      ShiftNHigh(g, ShiftRight(c, 1), n - 1);
      assert ShiftRight(ShiftRight(c, 1), n - 1) == ShiftRight(c, n);
    } else {
      assert ShiftRight(c, 0) == c;
    }
  }

  lemma SplitWord(x: Word, high: Word, n: nat)
    requires n <= 32 && high == Zeros(n) + x[n..]
    ensures x == Xor(high, Pack(x[..n]))
  {
  }

  lemma HighPart(s: Word, high: Word, n: nat)
    requires n <= 32 && high == Zeros(n) + s[n..]
    ensures ShiftRight(high, n) == ShiftRight(s, n)
  {
  }

  lemma UpperUntouched(s: Word, bits: seq<bool>, x: Word)
    requires |bits| <= 32 && x == Xor(s, Pack(bits))
    ensures x[|bits|..] == s[|bits|..]
  {
    forall i | |bits| <= i < 32
      ensures x[i] == s[i]
    {
      assert !Pack(bits)[i];
    }
  }

  /** Only the bits the message touches need dividing; the rest just move down. */
  lemma TableStep(g: Generator, s: Word, bits: seq<bool>)
    requires |bits| <= 32
    ensures Feed(g, s, bits) ==
            Xor(ShiftRight(s, |bits|), ShiftN(g, Pack(Xor(s, Pack(bits))[..|bits|]), |bits|))
  {
    FeedIsShift(g, s, bits);
    var n, x := |bits|, Xor(s, Pack(bits));
    var high: Word := Zeros(n) + x[n..];
    SplitWord(x, high, n);
    ShiftNXor(g, high, Pack(x[..n]), n);
    ShiftNHigh(g, high, n);
    UpperUntouched(s, bits, x);
    HighPart(s, high, n);
  }

  lemma {:induction false} BitsConcat(a: seq<Byte>, b: seq<Byte>)
    ensures Bits(a + b) == Bits(a) + Bits(b)
  {
    if a == [] {
      assert a + b == b;
    } else {
      assert (a + b)[1..] == a[1..] + b;
      BitsConcat(a[1..], b);
    }
  }

  lemma BitsSnoc(data: seq<Byte>, i: nat)
    requires i < |data|
    ensures Bits(data[..i + 1]) == Bits(data[..i]) + ByteBits(data[i])
  {
    assert data[..i + 1] == data[..i] + [data[i]];
    BitsConcat(data[..i], [data[i]]);
    assert Bits([data[i]]) == ByteBits(data[i]) + Bits([]) == ByteBits(data[i]);
  }

  lemma {:induction false} ShiftNSnoc(g: Generator, c: Word, n: nat)
    ensures ShiftN(g, c, n + 1) == Shift(g, ShiftN(g, c, n))
    decreases n
  {
    if n > 0 {
      ShiftNSnoc(g, Shift(g, c), n - 1);
    }
  }

  /** The low eight bits of register and byte mixed, as a table index. */
  function TableIndex(s: Word, b: Byte): nat {
    ToNat(Xor(s, Pack(ByteBits(b)))[..8])
  }

  /** One pass of the update loop, in terms of the message read so far. */
  lemma ByteStep(g: Generator, start: Word, s: Word, data: seq<Byte>, i: nat)
    requires i < |data| && s == Feed(g, start, Bits(data[..i]))
    ensures TableIndex(s, data[i]) < 256
    ensures Feed(g, start, Bits(data[..i + 1])) ==
            Xor(ShiftRight(s, 8), ShiftByte(g, ToWord(TableIndex(s, data[i]))))
  {
    var low := Xor(s, Pack(ByteBits(data[i])))[..8];
    ToNatBound(low);
    ToBitsWiden(low, |ZERO|);
    TableStep(g, s, ByteBits(data[i]));
    BitsSnoc(data, i);
    FeedConcat(g, start, Bits(data[..i]), ByteBits(data[i]));
  }

  lemma ComplementTwice(x: Word)
    ensures Complement(Complement(x)) == x
  {
  }

  // ----- The implementation -----

  method TableEntry(g: Generator, start: Word) returns (crc: Word)
    ensures crc == ShiftByte(g, start)
  {
    crc := start;
    var j := 0;
    while j < 8
      invariant 0 <= j <= 8
      invariant crc == ShiftN(g, start, j)
    {
      ShiftNSnoc(g, start, j);
      if crc[0] {
        crc := Xor(ShiftRight(crc, 1), g);
      } else {
        crc := ShiftRight(crc, 1);
      }
      j := j + 1;
    }
  }

  /** The register after a whole zero byte. */
  function ShiftByte(g: Generator, c: Word): Word {
    ShiftN(g, c, |ByteBits(0)|)
  }

  /** The first `n` entries are right: entry `k` is the register `k` after eight divisions. */
  ghost predicate IsTable(g: Generator, table: seq<Word>, n: nat) {
    n <= |table| && forall k :: 0 <= k < n ==> table[k] == ShiftByte(g, ToWord(k))
  }

  method BuildTable(g: Generator) returns (table: array<Word>)
    ensures fresh(table) && table.Length == 256
    ensures IsTable(g, table[..], 256)
  {
    table := new Word[256](_ => ZERO);
    var i := 0;
    while i < 256
      invariant 0 <= i <= 256
      invariant IsTable(g, table[..], i)
    {
      var crc := TableEntry(g, ToWord(i));
      table[i] := crc;
      i := i + 1;
    }
  }

  /** The incremental calculator. */
  class Calculator {
    const g: Generator
    var state: Word
    const table: array<Word>

    ghost predicate Valid()
      reads this, table
    {
      table.Length == 256 && IsTable(g, table[..], 256)
    }

    constructor (g: Generator)
      ensures Valid() && fresh(table) && this.g == g && state == ONES
    {
      var t := BuildTable(g);
      this.g := g;
      table := t;
      state := ONES;
    }

    method Update(data: seq<Byte>)
      requires Valid()
      modifies this`state
      ensures Valid()
      ensures state == Feed(g, old(state), Bits(data))
    {
      var i := 0;
      while i < |data|
        invariant 0 <= i <= |data|
        invariant state == Feed(g, old(state), Bits(data[..i]))
      {
        var index := TableIndex(state, data[i]);
        ByteStep(g, old(state), state, data, i);
        assert table[..][index] == ShiftByte(g, ToWord(index));
        state := Xor(ShiftRight(state, 8), table[index]);
        i := i + 1;
      }
      assert data[..i] == data;
    }

    /** Once `data` has been fed, in whatever pieces, the CRC of `data`. */
    method Finalize() returns (crc: Word)
      ensures Complement(crc) == state
      ensures forall data {:trigger Reference(g, data)} :: state == Feed(g, ONES, Bits(data)) ==> crc == Reference(g, data)
    {
      crc := Complement(state);
      ComplementTwice(state);
    }
  }

  // ----- Error detection -----

  lemma ByteBitsInjective(a: Byte, b: Byte)
    requires ByteBits(a) == ByteBits(b)
    ensures a == b
  {
    assert Pow2(|Zeros(8)|) == 256;
    ToNatToBits(a as int, |Zeros(8)|);
    ToNatToBits(b as int, |Zeros(8)|);
  }

  lemma {:induction false} BitsInjective(a: seq<Byte>, b: seq<Byte>)
    requires |a| == |b| && Bits(a) == Bits(b)
    ensures a == b
  {
    if a != [] {
      assert Bits(a)[..8] == ByteBits(a[0]) && Bits(b)[..8] == ByteBits(b[0]);
      assert Bits(a)[8..] == Bits(a[1..]) && Bits(b)[8..] == Bits(b[1..]);
      ByteBitsInjective(a[0], b[0]);
      BitsInjective(a[1..], b[1..]);
      assert a == [a[0]] + a[1..] && b == [b[0]] + b[1..];
    }
  }

  lemma {:induction false} ToNatToBits(v: nat, n: nat)
    requires v < Pow2(n)
    ensures ToNat(ToBits(v, n)) == v
    decreases n
  {
    if n > 0 {
      ToNatToBits(v / 2, n - 1);
      assert ToBits(v, n)[1..] == ToBits(v / 2, n - 1);
    }
  }

  /** Different runs of at most 32 bits drive the register apart. */
  lemma ShortRunsDiffer(g: Generator, s: Word, u: seq<bool>, v: seq<bool>)
    requires |u| == |v| <= 32 && u != v
    ensures Feed(g, s, u) != Feed(g, s, v)
  {
    FeedIsShift(g, s, u);
    FeedIsShift(g, s, v);
    assert Pack(u)[..|u|] == u && Pack(v)[..|v|] == v;
    assert Xor(s, Pack(u)) == Xor(Pack(u), s) && Xor(s, Pack(v)) == Xor(Pack(v), s);
    if Feed(g, s, u) == Feed(g, s, v) {
      ShiftNInjective(g, Xor(s, Pack(u)), Xor(s, Pack(v)), |u|);
      XorCancel(Pack(u), Pack(v), s);
    }
  }

  /** `u` and `v` agree on every bit outside the `width` bits from bit `p` on. */
  ghost predicate AgreeOutside(u: seq<bool>, v: seq<bool>, p: nat, width: nat)
    requires |u| == |v|
  {
    forall i :: 0 <= i < |u| && !(p <= i < p + width) ==> u[i] == v[i]
  }

  lemma BurstMovesRegister(g: Generator, s: Word, u: seq<bool>, v: seq<bool>, p: nat)
    requires |u| == |v| && u != v && AgreeOutside(u, v, p, 32)
    ensures Feed(g, s, u) != Feed(g, s, v)
  {
    var lo := if p < |u| then p else |u|;
    var hi := if lo + 32 < |u| then lo + 32 else |u|;
    assert u[..lo] == v[..lo];
    assert u[hi..] == v[hi..];
    assert u == u[..lo] + (u[lo..hi] + u[hi..]);
    assert v == v[..lo] + (v[lo..hi] + v[hi..]);
    assert u[lo..hi] != v[lo..hi];
    var t := Feed(g, s, u[..lo]);
    FeedConcat(g, s, u[..lo], u[lo..hi] + u[hi..]);
    FeedConcat(g, s, v[..lo], v[lo..hi] + v[hi..]);
    FeedConcat(g, t, u[lo..hi], u[hi..]);
    FeedConcat(g, t, v[lo..hi], v[hi..]);
    ShortRunsDiffer(g, t, u[lo..hi], v[lo..hi]);
    if Feed(g, s, u) == Feed(g, s, v) {
      FeedInjectiveInState(g, Feed(g, t, u[lo..hi]), Feed(g, t, v[lo..hi]), u[hi..]);
    }
  }

  lemma ComplementInjective(x: Word, y: Word)
    requires Complement(x) == Complement(y)
    ensures x == y
  {
    forall i | 0 <= i < 32
      ensures x[i] == y[i]
    {
      assert Complement(x)[i] == Complement(y)[i];
    }
  }

  /**
   Every burst error of at most 32 bits is detected, wherever it starts and
   however long the message.
   */
  lemma BurstDetected(g: Generator, a: seq<Byte>, b: seq<Byte>, p: nat)
    requires |a| == |b| && a != b
    requires AgreeOutside(Bits(a), Bits(b), p, 32)
    ensures Reference(g, a) != Reference(g, b)
  {
    if Bits(a) == Bits(b) {
      BitsInjective(a, b);
    }
    BurstMovesRegister(g, ONES, Bits(a), Bits(b), p);
    if Reference(g, a) == Reference(g, b) {
      ComplementInjective(Feed(g, ONES, Bits(a)), Feed(g, ONES, Bits(b)));
    }
  }

  lemma BitsParts(a: seq<Byte>, x: seq<Byte>, y: seq<Byte>, z: seq<Byte>)
    requires a == x + (y + z)
    ensures Bits(a) == Bits(x) + (Bits(y) + Bits(z))
  {
    BitsConcat(x, y + z);
    BitsConcat(y, z);
  }

  lemma MiddleDiffers(x: seq<bool>, y: seq<bool>, y': seq<bool>, z: seq<bool>, width: nat)
    requires |y| == |y'| <= width
    ensures AgreeOutside(x + (y + z), x + (y' + z), |x|, width)
  {
  }

  lemma PartsAgree(
    a: seq<Byte>, b: seq<Byte>, x: seq<Byte>, y: seq<Byte>, y': seq<Byte>, z: seq<Byte>, width: nat)
    requires a == x + (y + z) && b == x + (y' + z) && |y| == |y'| && 8 * |y| <= width
    ensures AgreeOutside(Bits(a), Bits(b), |Bits(x)|, width)
  {
    BitsParts(a, x, y, z);
    BitsParts(b, x, y', z);
    MiddleDiffers(Bits(x), Bits(y), Bits(y'), Bits(z), width);
  }

  lemma FourBytesAgree(a: seq<Byte>, b: seq<Byte>, k: nat) returns (p: nat)
    requires |a| == |b| && forall i :: 0 <= i < |a| && !(k <= i < k + 4) ==> a[i] == b[i]
    ensures AgreeOutside(Bits(a), Bits(b), p, 32)
  {
    var lo := if k < |a| then k else |a|;
    var hi := if k + 4 < |a| then k + 4 else |a|;
    var x, y, y', z := a[..lo], a[lo..hi], b[lo..hi], a[hi..];
    assert x == b[..lo] && z == b[hi..];
    assert a == x + (y + z) && b == x + (y' + z);
    PartsAgree(a, b, x, y, y', z, 32);
    p := |Bits(x)|;
  }

  /** In particular, damage confined to four consecutive bytes is detected. */
  lemma FourByteDamageDetected(g: Generator, a: seq<Byte>, b: seq<Byte>, k: nat)
    requires |a| == |b| && a != b
    requires forall i :: 0 <= i < |a| && !(k <= i < k + 4) ==> a[i] == b[i]
    ensures Reference(g, a) != Reference(g, b)
  {
    var p := FourBytesAgree(a, b, k);
    BurstDetected(g, a, b, p);
  }

  // ----- What goes undetected -----

  function XorBits(u: seq<bool>, v: seq<bool>): (r: seq<bool>)
    requires |u| == |v|
    ensures |r| == |u| && forall i :: 0 <= i < |u| ==> r[i] == (u[i] != v[i])
  {
    seq(|u|, i requires 0 <= i < |u| => u[i] != v[i])
  }

  lemma XorMixes(s: Word, t: Word, b: bool, c: bool)
    ensures Xor(Xor(s, Pack([b])), Xor(t, Pack([c]))) == Xor(Xor(s, t), Pack([b != c]))
  {
  }

  /** Feeding is linear in the register and the message together. */
  lemma {:induction false} FeedXor(g: Generator, s: Word, t: Word, u: seq<bool>, v: seq<bool>)
    requires |u| == |v|
    ensures Xor(Feed(g, s, u), Feed(g, t, v)) == Feed(g, Xor(s, t), XorBits(u, v))
    decreases u
  {
    if u != [] {
      var x, y := Xor(s, Pack([u[0]])), Xor(t, Pack([v[0]]));
      FeedXor(g, Shift(g, x), Shift(g, y), u[1..], v[1..]);
      ShiftXor(g, x, y);
      XorMixes(s, t, u[0], v[0]);
      assert XorBits(u, v)[1..] == XorBits(u[1..], v[1..]);
    }
  }

  /**
   Exactly which damage escapes: the difference pattern must itself divide
   evenly, whatever the message was.
   */
  lemma UndetectedIff(g: Generator, a: seq<Byte>, b: seq<Byte>)
    requires |a| == |b|
    ensures Reference(g, a) == Reference(g, b) <==> Feed(g, ZERO, XorBits(Bits(a), Bits(b))) == ZERO
  {
    var x, y := Feed(g, ONES, Bits(a)), Feed(g, ONES, Bits(b));
    FeedXor(g, ONES, ONES, Bits(a), Bits(b));
    assert Xor(ONES, ONES) == ZERO;
    assert x == y ==> Xor(x, y) == ZERO;
    if Xor(x, y) == ZERO {
      forall i | 0 <= i < 32
        ensures x[i] == y[i]
      {
        assert !Xor(x, y)[i];
      }
    }
    if Reference(g, a) == Reference(g, b) {
      ComplementInjective(x, y);
    }
  }

  lemma {:induction false} FeedZeros(g: Generator, n: nat)
    ensures Feed(g, ZERO, Zeros(n)) == ZERO
    decreases n
  {
    if n > 0 {
      assert Xor(ZERO, Pack([Zeros(n)[0]])) == ZERO;
      assert Shift(g, ZERO) == ZERO;
      assert Zeros(n)[1..] == Zeros(n - 1);
      FeedZeros(g, n - 1);
    }
  }

  lemma PolynomialDivides(g: Generator)
    ensures Feed(g, ZERO, [true] + g) == ZERO
  {
    FeedConcat(g, ZERO, [true], g);
    assert Feed(g, ZERO, [true]) == Feed(g, Shift(g, Xor(ZERO, Pack([true]))), []);
    assert Shift(g, Xor(ZERO, Pack([true]))) == g;
    FeedIsShift(g, g, g);
    assert Pack(g) == g && Xor(g, g) == ZERO;
    ShiftNZero(g, 32);
  }

  /**
   32 is the limit: the 33-bit burst that is the generator polynomial itself
   goes undetected in every message and at every bit position.
   */
  lemma PolynomialBurstUndetected(g: Generator, a: seq<Byte>, b: seq<Byte>, p: nat, n: nat)
    requires |a| == |b| && p + 33 + n == 8 * |a|
    requires XorBits(Bits(a), Bits(b)) == Zeros(p) + ([true] + g) + Zeros(n)
    ensures Reference(g, a) == Reference(g, b)
    ensures a != b && AgreeOutside(Bits(a), Bits(b), p, 33)
  {
    var e := XorBits(Bits(a), Bits(b));
    FeedConcat(g, ZERO, Zeros(p) + ([true] + g), Zeros(n));
    FeedConcat(g, ZERO, Zeros(p), [true] + g);
    FeedZeros(g, p);
    PolynomialDivides(g);
    FeedZeros(g, n);
    UndetectedIff(g, a, b);
    assert e[p];
    assert forall i :: 0 <= i < p || p + 33 <= i < p + 33 + n ==> !e[i];
  }

  // ----- The firmware's generator -----

  lemma {:induction false} ToBitsAt(v: nat, n: nat, i: nat)
    requires i < n
    ensures ToBits(v, n)[i] == (v / Pow2(i) % 2 == 1)
    decreases n
  {
    if i > 0 {
      ToBitsAt(v / 2, n - 1, i - 1);
      DivideTwice(v, Pow2(i - 1));
    }
  }

  lemma TopBit(v: nat, i: nat)
    requires i == 31
    ensures ToBits(v, i + 1)[i] == (v / 0x8000_0000 % 2 == 1)
  {
    ToBitsAt(v, i + 1, i);
    Pow2Value(i);
  }

  lemma Pow2Value(i: nat)
    requires i == 31
    ensures Pow2(i) == 0x8000_0000
  {
    assert Pow2(8) == 0x100;
    assert Pow2(16) == 0x1_0000;
    assert Pow2(24) == 0x100_0000;
  }

  lemma FillsTop(v: nat)
    requires v / 0x8000_0000 % 2 == 1
    ensures ToWord(v)[31]
  {
    TopBit(v, |ZERO| - 1);
  }

  /** The reflected IEEE 802.3 polynomial. */
  function Ieee(): Generator {
    FillsTop(0xEDB8_8320);
    ToWord(0xEDB8_8320)
  }

  /** One shot: the table-driven calculator computes the reference CRC. */
  method Compute(data: seq<Byte>) returns (crc: Word)
    ensures crc == Reference(Ieee(), data)
  {
    var c := new Calculator(Ieee());
    c.Update(data);
    crc := c.Finalize();
  }

  /** Two chunks fed one after the other give the CRC of their concatenation. */
  method ComputeInChunks(first: seq<Byte>, second: seq<Byte>) returns (crc: Word)
    ensures crc == Reference(Ieee(), first + second)
  {
    var c := new Calculator(Ieee());
    c.Update(first);
    c.Update(second);
    crc := c.Finalize();
    BitsConcat(first, second);
    FeedConcat(Ieee(), ONES, Bits(first), Bits(second));
  }
}

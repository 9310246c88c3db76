/** Bits of bytes: the big-endian bit string of a byte buffer, its packing, and the bits of a number. */
module Bytes {

  function Pow2(n: nat): (p: nat)
    ensures p >= 1
  {
    if n == 0 then 1 else 2 * Pow2(n - 1)
  }

  lemma {:induction false} Pow2Monotone(m: nat, n: nat)
    requires m <= n
    ensures Pow2(m) <= Pow2(n)
    decreases n
  {
    if m < n {
      Pow2Monotone(m, n - 1);
    }
  }

  /** Bit i of a byte, counted from the least significant one. */
  function Bit(b: bv8, i: nat): bool
    requires i < 8
  {
    if i < 4 then
      if i < 2 then (if i == 0 then b & 1 != 0 else b & 2 != 0)
      else if i == 2 then b & 4 != 0 else b & 8 != 0
    else
      if i < 6 then (if i == 4 then b & 16 != 0 else b & 32 != 0)
      else if i == 6 then b & 64 != 0 else b & 128 != 0
  }

  /** The shift-and-mask form in which the source reads a bit. */
  lemma BitIsShift(b: bv8, i: nat)
    requires i < 8
    ensures Bit(b, i) == ((b >> i) & 1 != 0)
    ensures (b >> i) & 1 == if Bit(b, i) then 1 else 0
  {
  }

  /** b with bit v OR-ed in at position i. */
  function WithBit(b: bv8, v: bv8, i: nat): bv8
    requires i < 8
  {
    b | (v << i)
  }

  /** OR-ing in one shifted bit changes that bit only. */
  lemma OrBit(b: bv8, v: bool, i: nat, k: nat)
    requires i < 8 && k < 8
    ensures Bit(WithBit(b, if v then 1 else 0, i), k) == (Bit(b, k) || (v && k == i))
  {
    assert i == 0 || i == 1 || i == 2 || i == 3 || i == 4 || i == 5 || i == 6 || i == 7;
  }

  /** Clearing through an inverted single-bit mask changes that bit only. */
  lemma ClearBit(b: bv8, i: nat, k: nat)
    requires i < 8 && k < 8
    ensures Bit(b & ((1 << i) ^ 0xFF), k) == (Bit(b, k) && k != i)
  {
    assert i == 0 || i == 1 || i == 2 || i == 3 || i == 4 || i == 5 || i == 6 || i == 7;
  }

  // ---------- bit strings ----------

  /** The bits of a byte string, most significant bit of each byte first. */
  function BitsOf(bytes: seq<bv8>): (bits: seq<bool>)
    ensures |bits| == 8 * |bytes|
  {
    seq(8 * |bytes|, i requires 0 <= i < 8 * |bytes| => Bit(bytes[i / 8], 7 - i % 8))
  }

  function ByteOf(bits: seq<bool>): bv8
    requires |bits| == 8
  {
    (if bits[0] then 128 else 0) | (if bits[1] then 64 else 0) | (if bits[2] then 32 else 0) |
    (if bits[3] then 16 else 0) | (if bits[4] then 8 else 0) | (if bits[5] then 4 else 0) |
    (if bits[6] then 2 else 0) | (if bits[7] then 1 else 0)
  }

  /** Groups of eight bits as bytes; a last incomplete group is ignored. */
  function Pack(bits: seq<bool>): (bytes: seq<bv8>)
    ensures |bytes| == |bits| / 8
  {
    seq(|bits| / 8, i requires 0 <= i < |bits| / 8 => ByteOf(bits[8 * i..8 * i + 8]))
  }

  lemma ByteOfBits(b: bv8, bits: seq<bool>)
    requires |bits| == 8 && forall i | 0 <= i < 8 :: bits[i] == Bit(b, 7 - i)
    ensures ByteOf(bits) == b
  {
  }

  /** Packing undoes BitsOf, and ignores up to seven extra bits. */
  lemma PackBits(bytes: seq<bv8>, extra: seq<bool>)
    requires |extra| < 8
    ensures Pack(BitsOf(bytes) + extra) == bytes
  {
    hide Bit, ByteOf;
    var bits := BitsOf(bytes) + extra;
    forall i | 0 <= i < |bytes|
      ensures ByteOf(bits[8 * i..8 * i + 8]) == bytes[i]
    {
      ByteOfBits(bytes[i], bits[8 * i..8 * i + 8]);
    }
  }

  /** BitsOf undoes packing whole bytes. */
  lemma BitsOfPack(bits: seq<bool>)
    requires |bits| % 8 == 0
    ensures BitsOf(Pack(bits)) == bits
  {
    hide Bit, ByteOf;
    forall i | 0 <= i < |bits|
      ensures BitsOf(Pack(bits))[i] == bits[i]
    {
      var group := bits[8 * (i / 8)..8 * (i / 8) + 8];
      BitsOfByte(group);
      assert BitsOf([ByteOf(group)])[i % 8] == group[i % 8];
    }
  }

  lemma BitsOfPrefix(bytes: seq<bv8>, n: nat)
    requires n <= |bytes|
    ensures BitsOf(bytes[..n]) == BitsOf(bytes)[..8 * n]
  {
    hide Bit;
  }

  lemma BitsLength(bytes: seq<bv8>)
    ensures |BitsOf(bytes)| == 8 * |bytes|
  {
  }

  lemma BitsOfConcat(a: seq<bv8>, b: seq<bv8>)
    ensures BitsOf(a + b) == BitsOf(a) + BitsOf(b)
  {
    hide Bit;
  }

  // ---------- numbers as bit strings ----------

  /** The n low-order bits of a number, most significant first. */
  function NatBits(val: nat, n: nat): (bits: seq<bool>)
    ensures |bits| == n
  {
    if n == 0 then [] else NatBits(val / 2, n - 1) + [val % 2 == 1]
  }

  function BitsToNat(bits: seq<bool>): nat
  {
    if bits == [] then 0
    else 2 * BitsToNat(bits[..|bits| - 1]) + if bits[|bits| - 1] then 1 else 0
  }

  lemma {:induction false} NatBitsRoundTrip(val: nat, n: nat)
    requires val < Pow2(n)
    ensures BitsToNat(NatBits(val, n)) == val
  {
    if n > 0 {
      NatBitsRoundTrip(val / 2, n - 1);
      assert NatBits(val, n)[..n - 1] == NatBits(val / 2, n - 1);
    }
  }

  lemma {:induction false} BitsToNatRoundTrip(bits: seq<bool>)
    ensures BitsToNat(bits) < Pow2(|bits|)
    ensures NatBits(BitsToNat(bits), |bits|) == bits
  {
    if bits != [] {
      BitsToNatRoundTrip(bits[..|bits| - 1]);
    }
  }

  /** A byte as a number. */
  function ByteValue(b: bv8): nat {
    BitsToNat(BitsOf([b]))
  }

  /** The cast of a number to a byte: its eight low-order bits. */
  function ByteFrom(n: nat): bv8 {
    ByteOf(NatBits(n, 8))
  }

  lemma ByteValueFrom(n: nat)
    requires n < 256
    ensures ByteValue(ByteFrom(n)) == n
  {
    hide Bit, ByteOf;
    BitsOfByte(NatBits(n, 8));
    assert Pow2(8) == 256;
    NatBitsRoundTrip(n, 8);
  }

  lemma ByteFromValue(b: bv8)
    ensures ByteFrom(ByteValue(b)) == b
    ensures ByteValue(b) < 256
    ensures NatBits(ByteValue(b), 8) == BitsOf([b])
  {
    BitsToNatRoundTrip(BitsOf([b]));
    assert Pow2(8) == 256;
    ByteOfBits(b, BitsOf([b]));
  }

  lemma BitsOfByte(bits: seq<bool>)
    requires |bits| == 8
    ensures BitsOf([ByteOf(bits)]) == bits
  {
    forall i: nat | i < 8
      ensures Bit(ByteOf(bits), 7 - i) == bits[i]
    {
      assert i == 0 || i == 1 || i == 2 || i == 3 || i == 4 || i == 5 || i == 6 || i == 7;
    }
    hide Bit, ByteOf;
  }

  /** Bit k from the top of an n-bit number is what shifting right by n-1-k and masking gives. */
  lemma {:induction false} NatBitsAt(val: nat, n: nat, i: nat)
    requires i < n
    ensures NatBits(val, n)[n - 1 - i] == ((val / Pow2(i)) % 2 == 1)
    decreases n
  {
    if i > 0 {
      NatBitsAt(val / 2, n - 1, i - 1);
      DivTwice(val, Pow2(i - 1));
    }
  }

  lemma DivTwice(a: nat, p: nat)
    requires p > 0
    ensures (a / 2) / p == a / (2 * p)
  {
    var q, r := (a / 2) / p, (a / 2) % p;
    assert a / 2 == q * p + r;
    assert a == q * (2 * p) + (2 * r + a % 2);
    DivUnique(a, 2 * p, q, 2 * r + a % 2);
  }

  lemma DivUnique(a: int, d: int, q: int, r: int)
    requires d > 0 && a == q * d + r && 0 <= r < d
    ensures a / d == q && a % d == r
  {
    assert a == (a / d) * d + a % d;
    if q < a / d {
      assert (a / d - q) * d >= d by { MulAtLeast(a / d - q, d); }
    } else if a / d < q {
      assert (q - a / d) * d >= d by { MulAtLeast(q - a / d, d); }
    }
  }

  lemma MulAtLeast(k: int, d: int)
    requires k >= 1 && d >= 0
    ensures k * d >= d
  {
  }

  function Zeros(n: nat): (bits: seq<bool>)
    ensures |bits| == n
  {
    seq(n, _ => false)
  }

  /** The bit string `field` OR-ed into `bits` from position `at` on. */
  ghost function OrInto(bits: seq<bool>, at: nat, field: seq<bool>): (r: seq<bool>)
    requires at + |field| <= |bits|
    ensures |r| == |bits|
  {
    seq(|bits|, i requires 0 <= i < |bits| => bits[i] || (at <= i < at + |field| && field[i - at]))
  }

  /** The buffer holds `stream` from its first bit on, and zeros after it up to the given capacity. */
  ghost predicate Holds(buffer: seq<bv8>, stream: seq<bool>, capacity: nat) {
    var bits := BitsOf(buffer);
    && |stream| <= capacity <= |bits|
    && bits[..|stream|] == stream
    && (forall i | |stream| <= i < capacity :: !bits[i])
  }

  lemma HoldsAppend(before: seq<bv8>, after: seq<bv8>, stream: seq<bool>, field: seq<bool>, capacity: nat)
    requires Holds(before, stream, capacity)
    requires |after| == |before| && |stream| + |field| <= capacity
    requires BitsOf(after) == OrInto(BitsOf(before), |stream|, field)
    ensures Holds(after, stream + field, capacity)
  {
    hide BitsOf;
    assert BitsOf(after)[..|stream| + |field|] == stream + field;
  }

  lemma HoldsNothing(buffer: seq<bv8>, n: nat)
    requires n <= |buffer| && forall i | 0 <= i < n :: buffer[i] == 0
    ensures Holds(buffer, [], 8 * n)
  {
    assert BitsOf(buffer)[..0] == [];
  }

  /** Appends the low-order bits of val to a bit buffer; returns the new bit length. */
  method AppendBitsToBuffer(val: nat, numBits: nat, buffer: array<bv8>, bitLen: nat) returns (newLen: nat)
    requires numBits <= 16 && val < Pow2(numBits)
    requires bitLen + numBits <= 8 * buffer.Length
    modifies buffer
    ensures newLen == bitLen + numBits
    ensures BitsOf(buffer[..]) == OrInto(BitsOf(old(buffer[..])), bitLen, NatBits(val, numBits))
  {
    ghost var field := NatBits(val, numBits);
    ghost var before := BitsOf(buffer[..]);
    var i := numBits - 1;
    newLen := bitLen;
    while i >= 0
      invariant -1 <= i < numBits
      invariant newLen == bitLen + (numBits - 1 - i)
      invariant BitsOf(buffer[..]) == OrInto(before, bitLen, field[..newLen - bitLen])
    {
      ghost var now := buffer[..];
      var bit: bv8 := if (val / Pow2(i)) % 2 == 1 then 1 else 0;
      NatBitsAt(val, numBits, i);
      buffer[newLen / 8] := WithBit(buffer[newLen / 8], bit, 7 - newLen % 8);
      OneBitSet(now, buffer[..], newLen, field[newLen - bitLen]);
      assert field[..newLen + 1 - bitLen] == field[..newLen - bitLen] + [field[newLen - bitLen]];
      newLen := newLen + 1;
      i := i - 1;
    }
    assert field[..numBits] == field;
  }

  lemma OneBitSet(before: seq<bv8>, after: seq<bv8>, at: nat, v: bool)
    requires at < 8 * |before|
    requires after == before[at / 8 := WithBit(before[at / 8], if v then 1 else 0, 7 - at % 8)]
    ensures BitsOf(after) == OrInto(BitsOf(before), at, [v])
  {
    hide Bit, WithBit;
    forall i | 0 <= i < 8 * |before|
      ensures BitsOf(after)[i] == OrInto(BitsOf(before), at, [v])[i]
    {
      if i / 8 == at / 8 {
        OrBit(before[at / 8], v, 7 - at % 8, 7 - i % 8);
      }
    }
  }

  /** AppendBitsToBuffer on a buffer that so far holds a bit stream. */
  method AppendToStream(val: nat, numBits: nat, buffer: array<bv8>, bitLen: nat, ghost stream: seq<bool>,
                        ghost capacity: nat)
    returns (newLen: nat)
    requires numBits <= 16 && val < Pow2(numBits)
    requires Holds(buffer[..], stream, capacity) && bitLen == |stream| && bitLen + numBits <= capacity
    modifies buffer
    ensures newLen == bitLen + numBits
    ensures Holds(buffer[..], stream + NatBits(val, numBits), capacity)
  {
    hide BitsOf, NatBits;
    ghost var before := buffer[..];
    newLen := AppendBitsToBuffer(val, numBits, buffer, bitLen);
    HoldsAppend(before, buffer[..], stream, NatBits(val, numBits), capacity);
  }
}

/** The bit-packed module grid: byte 0 is the side length, the modules follow row by row, eight to a byte. */
module Grid {
  import opened Bytes
  import opened VersionInfo

  /** The buffer q holds a grid of the given version's size. */
  ghost predicate IsGrid(q: seq<bv8>, v: Version) {
    |q| >= BufferLen(v) && ByteValue(q[0]) == Size(v)
  }

  ghost predicate InGrid(v: Version, x: int, y: int) {
    0 <= x < Size(v) && 0 <= y < Size(v)
  }

  lemma IndexBound(v: Version, x: int, y: int)
    requires InGrid(v, x, y)
    ensures 0 <= y * Size(v) + x < Size(v) * Size(v)
    ensures 0 < (y * Size(v) + x) / 8 + 1 < BufferLen(v)
  {
    var n := Size(v);
    assert (y + 1) * n <= n * n by { MulMonotone(y + 1, n, n); }
    assert y * n >= 0;
  }

  lemma IndexInjective(v: Version, x: int, y: int, x': int, y': int)
    requires InGrid(v, x, y) && InGrid(v, x', y')
    requires y * Size(v) + x == y' * Size(v) + x'
    ensures x == x' && y == y'
  {
    DivUnique(y * Size(v) + x, Size(v), y, x);
    DivUnique(y' * Size(v) + x', Size(v), y', x');
  }

  method GetSize(qrcode: array<bv8>, ghost v: Version) returns (qrsize: int)
    requires IsGrid(qrcode[..], v)
    ensures qrsize == Size(v)
  {
    qrsize := ByteValue(qrcode[0]);
  }

  /** The module at column x, row y. */
  ghost function At(q: seq<bv8>, v: Version, x: int, y: int): bool
    requires |q| >= BufferLen(v) && InGrid(v, x, y)
  {
    IndexBound(v, x, y);
    var index := y * Size(v) + x;
    Bit(q[index / 8 + 1], index % 8)
  }

  /** Modules lie row by row behind the first byte, eight to a byte, the least significant bit first. */
  lemma RowByRow(q: seq<bv8>, v: Version, x: int, y: int, index: nat)
    requires |q| >= BufferLen(v) && InGrid(v, x, y) && index == y * Size(v) + x
    ensures 0 < index / 8 + 1 < |q| && At(q, v, x, y) == ((q[index / 8 + 1] >> (index % 8)) & 1 != 0)
  {
    hide Bit;
    IndexBound(v, x, y);
    BitIsShift(q[index / 8 + 1], index % 8);
  }

  method GetModule(qrcode: array<bv8>, ghost v: Version, x: int, y: int) returns (isBlack: bool)
    requires IsGrid(qrcode[..], v) && InGrid(v, x, y)
    ensures isBlack == At(qrcode[..], v, x, y)
  {
    hide Bit;
    var qrsize := ByteValue(qrcode[0]);
    IndexBound(v, x, y);
    var index := y * qrsize + x;
    BitIsShift(qrcode[index / 8 + 1], index % 8);
    isBlack := (qrcode[index / 8 + 1] >> (index % 8)) & 1 != 0;
  }

  /** q' is q with the one module (x, y) set to c. */
  ghost predicate OneModuleSet(q: seq<bv8>, q': seq<bv8>, v: Version, x: int, y: int, c: bool)
    requires InGrid(v, x, y)
  {
    && |q'| == |q| && IsGrid(q, v) && IsGrid(q', v)
    && (forall x', y' | InGrid(v, x', y') :: At(q', v, x', y') == if x' == x && y' == y then c else At(q, v, x', y'))
    && (forall k | BufferLen(v) <= k < |q| :: q'[k] == q[k])
  }

  method SetModule(qrcode: array<bv8>, ghost v: Version, x: int, y: int, isBlack: bool)
    requires IsGrid(qrcode[..], v) && InGrid(v, x, y)
    modifies qrcode
    ensures OneModuleSet(old(qrcode[..]), qrcode[..], v, x, y, isBlack)
  {
    hide Bit, WithBit;
    var qrsize := ByteValue(qrcode[0]);
    IndexBound(v, x, y);
    var index := y * qrsize + x;
    var bitIndex, byteIndex := index % 8, index / 8 + 1;
    ghost var before := qrcode[..];
    if isBlack {
      qrcode[byteIndex] := WithBit(qrcode[byteIndex], 1, bitIndex);
    } else {
      qrcode[byteIndex] := qrcode[byteIndex] & ((1 << bitIndex) ^ 0xFF);
    }
    forall k: nat | k < 8
      ensures Bit(qrcode[byteIndex], k) == if k == bitIndex then isBlack else Bit(before[byteIndex], k)
    {
      OrBit(before[byteIndex], true, bitIndex, k);
      ClearBit(before[byteIndex], bitIndex, k);
    }
    OneBitWritten(before, qrcode[..], v, x, y, byteIndex, isBlack);
  }

  lemma OneBitWritten(q: seq<bv8>, q': seq<bv8>, v: Version, x: int, y: int, byteIndex: nat, c: bool)
    requires IsGrid(q, v) && InGrid(v, x, y) && |q'| == |q|
    requires byteIndex == (y * Size(v) + x) / 8 + 1 && 0 < byteIndex < BufferLen(v)
    requires forall k | 0 <= k < |q| && k != byteIndex :: q'[k] == q[k]
    requires forall k: nat | k < 8 ::
               Bit(q'[byteIndex], k) == if k == (y * Size(v) + x) % 8 then c else Bit(q[byteIndex], k)
    ensures OneModuleSet(q, q', v, x, y, c)
  {
    hide Bit;
    forall x', y' | InGrid(v, x', y')
      ensures At(q', v, x', y') == if x' == x && y' == y then c else At(q, v, x', y')
    {
      IndexBound(v, x', y');
      var i, i' := y * Size(v) + x, y' * Size(v) + x';
      if i == i' {
        IndexInjective(v, x, y, x', y');
      } else if i / 8 == i' / 8 {
        assert i' % 8 != i % 8;
      }
    }
  }

  method SetModuleBounded(qrcode: array<bv8>, ghost v: Version, x: int, y: int, isBlack: bool)
    requires IsGrid(qrcode[..], v)
    modifies qrcode
    ensures if InGrid(v, x, y) then OneModuleSet(old(qrcode[..]), qrcode[..], v, x, y, isBlack)
            else qrcode[..] == old(qrcode[..])
  {
    var qrsize := ByteValue(qrcode[0]);
    if 0 <= x < qrsize && 0 <= y < qrsize {
      SetModule(qrcode, v, x, y, isBlack);
    }
  }

  /** Public accessor: modules outside the grid read as white, and so do all modules of a failed symbol, whose size is
      0. */
  method GetModulePublic(qrcode: array<bv8>, ghost v: Version, x: int, y: int) returns (isBlack: bool)
    requires qrcode.Length > 0 && (IsGrid(qrcode[..], v) || qrcode[0] == 0)
    ensures isBlack == (IsGrid(qrcode[..], v) && InGrid(v, x, y) && At(qrcode[..], v, x, y))
  {
    hide BufferLen, ByteValue;
    ZeroSize();
    var qrsize := ByteValue(qrcode[0]);
    if 0 <= x < qrsize && 0 <= y < qrsize {
      isBlack := GetModule(qrcode, v, x, y);
    } else {
      isBlack := false;
    }
  }

  lemma ZeroSize()
    ensures ByteValue(0) == 0
  {
    ByteValueFrom(0);
    ByteFromValue(0);
    assert NatBits(0, 8) == [false, false, false, false, false, false, false, false];
    assert ByteFrom(0) == 0;
  }
}

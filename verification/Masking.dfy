/** The eight data masks and the code that XORs one of them over the codeword modules. */
module Masking {
  import opened Bytes
  import opened VersionInfo
  import opened Grid

  /** Whether mask m inverts the module at (x, y). */
  function MaskBit(m: MaskId, x: nat, y: nat): bool {
    Inverts(m, x, y, x * y)
  }

  /** The conditions of the eight masks, with p the product of the coordinates. */
  function Inverts(m: MaskId, x: nat, y: nat, p: nat): bool {
    match m
    case 0 => (x + y) % 2 == 0
    case 1 => y % 2 == 0
    case 2 => x % 3 == 0
    case 3 => (x + y) % 3 == 0
    case 4 => (x / 3 + y / 2) % 2 == 0
    case 5 => p % 2 + p % 3 == 0
    case 6 => (p % 2 + p % 3) % 2 == 0
    case _ => ((x + y) % 2 + p % 3) % 2 == 0
  }

  /** q' is q with mask m XORed over the modules that are white in the function map fm. */
  ghost predicate Masked(v: Version, fm: seq<bv8>, q: seq<bv8>, q': seq<bv8>, m: MaskId) {
    && IsGrid(fm, v) && IsGrid(q, v) && IsGrid(q', v)
    && forall x, y | InGrid(v, x, y) :: At(q', v, x, y) == (At(q, v, x, y) != (!At(fm, v, x, y) && MaskBit(m, x, y)))
  }

  /** Masking twice with one mask changes no module: the XOR undoes itself. */
  lemma MaskTwice(v: Version, fm: seq<bv8>, q: seq<bv8>, q': seq<bv8>, q'': seq<bv8>, m: MaskId)
    requires Masked(v, fm, q, q', m) && Masked(v, fm, q', q'', m)
    ensures forall x, y | InGrid(v, x, y) :: At(q'', v, x, y) == At(q, v, x, y)
  {
    hide At, BufferLen, MaskBit;
  }

  method ApplyMask(functionModules: array<bv8>, qrcode: array<bv8>, mask: MaskId, ghost v: Version)
    requires functionModules != qrcode && IsGrid(functionModules[..], v) && IsGrid(qrcode[..], v)
    modifies qrcode
    ensures Masked(v, functionModules[..], old(qrcode[..]), qrcode[..], mask)
  {
    hide At, BufferLen, MaskBit;
    ghost var q, fm := qrcode[..], functionModules[..];
    var qrsize := GetSize(qrcode, v);
    for y := 0 to qrsize
      invariant IsGrid(qrcode[..], v) && functionModules[..] == fm
      invariant forall x', y' | InGrid(v, x', y') ::
                  At(qrcode[..], v, x', y') ==
                  (At(q, v, x', y') != (y' < y && !At(fm, v, x', y') && MaskBit(mask, x', y')))
    {
      for x := 0 to qrsize
        invariant IsGrid(qrcode[..], v) && functionModules[..] == fm
        invariant forall x', y' | InGrid(v, x', y') ::
                    At(qrcode[..], v, x', y') ==
                    (At(q, v, x', y') != ((y' < y || (y' == y && x' < x)) && !At(fm, v, x', y') &&
                      MaskBit(mask, x', y')))
      {
        var isFunction := GetModule(functionModules, v, x, y);
        if isFunction {
          continue;
        }
        var invert := MaskBit(mask, x, y);
        var val := GetModule(qrcode, v, x, y);
        SetModule(qrcode, v, x, y, val != invert);
      }
    }
  }

  // ---------- what the masks look like ----------

  /** Rows of the first tile of each mask; X inverts. */
  function Tile(m: MaskId): seq<string> {
    match m
    case 0 => Tile0()
    case 1 => Tile1()
    case 2 => Tile2()
    case 3 => Tile3()
    case 4 => Tile4()
    case 5 => Tile5()
    case 6 => Tile6()
    case _ => Tile7()
  }

  function Tile0(): seq<string> {
    ["X.X.X.", ".X.X.X", "X.X.X.", ".X.X.X", "X.X.X.", ".X.X.X"]
  }

  function Tile1(): seq<string> {
    ["XXXXXX", "......", "XXXXXX", "......", "XXXXXX", "......"]
  }

  function Tile2(): seq<string> {
    ["X..X..", "X..X..", "X..X..", "X..X..", "X..X..", "X..X.."]
  }

  function Tile3(): seq<string> {
    ["X..X..", "..X..X", ".X..X.", "X..X..", "..X..X", ".X..X."]
  }

  function Tile4(): seq<string> {
    ["XXX...", "XXX...", "...XXX", "...XXX"]
  }

  function Tile5(): seq<string> {
    ["XXXXXX", "X.....", "X..X..", "X.X.X.", "X..X..", "X....."]
  }

  function Tile6(): seq<string> {
    ["XXXXXX", "XXX...", "XX.XX.", "X.X.X.", "X.XX.X", "X...XX"]
  }

  function Tile7(): seq<string> {
    ["X.X.X.", "...XXX", "X...XX", ".X.X.X", "XXX...", ".XXX.."]
  }

  /** Products of numbers below 6, without multiplying variables. */
  function SmallProduct(x: nat, y: nat): nat {
    if y == 0 then 0 else if y == 1 then x else if y == 2 then 2 * x
    else if y == 3 then 3 * x else if y == 4 then 4 * x else 5 * x
  }

  lemma SmallProductIs(x: nat, y: nat)
    requires y < 6
    ensures x * y == SmallProduct(x, y)
  {
    assert y == 0 || y == 1 || y == 2 || y == 3 || y == 4 || y == 5;
  }

  function TileHeight(m: MaskId): nat {
    if m == 4 then 4 else 6
  }

  lemma TileIs0(x: nat, y: nat, p: nat)
    requires x < 6 && y < 6 && p == SmallProduct(x, y)
    ensures |Tile0()| == 6 && |Tile0()[y]| == 6 && Inverts(0, x, y, p) == (Tile0()[y][x] == 'X')
  {
    assert y == 0 || y == 1 || y == 2 || y == 3 || y == 4 || y == 5;
    assert x == 0 || x == 1 || x == 2 || x == 3 || x == 4 || x == 5;
  }

  lemma TileIs1(x: nat, y: nat, p: nat)
    requires x < 6 && y < 6 && p == SmallProduct(x, y)
    ensures |Tile1()| == 6 && |Tile1()[y]| == 6 && Inverts(1, x, y, p) == (Tile1()[y][x] == 'X')
  {
    assert y == 0 || y == 1 || y == 2 || y == 3 || y == 4 || y == 5;
    assert x == 0 || x == 1 || x == 2 || x == 3 || x == 4 || x == 5;
  }

  lemma TileIs2(x: nat, y: nat, p: nat)
    requires x < 6 && y < 6 && p == SmallProduct(x, y)
    ensures |Tile2()| == 6 && |Tile2()[y]| == 6 && Inverts(2, x, y, p) == (Tile2()[y][x] == 'X')
  {
    assert y == 0 || y == 1 || y == 2 || y == 3 || y == 4 || y == 5;
    assert x == 0 || x == 1 || x == 2 || x == 3 || x == 4 || x == 5;
  }

  lemma TileIs3(x: nat, y: nat, p: nat)
    requires x < 6 && y < 6 && p == SmallProduct(x, y)
    ensures |Tile3()| == 6 && |Tile3()[y]| == 6 && Inverts(3, x, y, p) == (Tile3()[y][x] == 'X')
  {
    assert y == 0 || y == 1 || y == 2 || y == 3 || y == 4 || y == 5;
    assert x == 0 || x == 1 || x == 2 || x == 3 || x == 4 || x == 5;
  }

  lemma TileIs4(x: nat, y: nat, p: nat)
    requires x < 6 && y < 4 && p == SmallProduct(x, y)
    ensures |Tile4()| == 4 && |Tile4()[y]| == 6 && Inverts(4, x, y, p) == (Tile4()[y][x] == 'X')
  {
    assert y == 0 || y == 1 || y == 2 || y == 3;
    assert x == 0 || x == 1 || x == 2 || x == 3 || x == 4 || x == 5;
  }

  lemma TileIs5(x: nat, y: nat, p: nat)
    requires x < 6 && y < 6 && p == SmallProduct(x, y)
    ensures |Tile5()| == 6 && |Tile5()[y]| == 6 && Inverts(5, x, y, p) == (Tile5()[y][x] == 'X')
  {
    assert y == 0 || y == 1 || y == 2 || y == 3 || y == 4 || y == 5;
    assert x == 0 || x == 1 || x == 2 || x == 3 || x == 4 || x == 5;
  }

  lemma TileIs6(x: nat, y: nat, p: nat)
    requires x < 6 && y < 6 && p == SmallProduct(x, y)
    ensures |Tile6()| == 6 && |Tile6()[y]| == 6 && Inverts(6, x, y, p) == (Tile6()[y][x] == 'X')
  {
    assert y == 0 || y == 1 || y == 2 || y == 3 || y == 4 || y == 5;
    assert x == 0 || x == 1 || x == 2 || x == 3 || x == 4 || x == 5;
  }

  lemma TileIs7(x: nat, y: nat, p: nat)
    requires x < 6 && y < 6 && p == SmallProduct(x, y)
    ensures |Tile7()| == 6 && |Tile7()[y]| == 6 && Inverts(7, x, y, p) == (Tile7()[y][x] == 'X')
  {
    assert x == 0 || x == 1 || x == 2 || x == 3 || x == 4 || x == 5;
    match y
    case 0 => assert Inverts(7, x, 0, 0 * x) == (Tile7()[0][x] == 'X');
    case 1 => assert Inverts(7, x, 1, 1 * x) == (Tile7()[1][x] == 'X');
    case 2 => assert Inverts(7, x, 2, 2 * x) == (Tile7()[2][x] == 'X');
    case 3 => assert Inverts(7, x, 3, 3 * x) == (Tile7()[3][x] == 'X');
    case 4 => assert Inverts(7, x, 4, 4 * x) == (Tile7()[4][x] == 'X');
    case _ => assert Inverts(7, x, 5, 5 * x) == (Tile7()[5][x] == 'X');
  }

  lemma TileIsMask(m: MaskId, x: nat, y: nat)
    requires x < 6 && y < TileHeight(m)
    ensures |Tile(m)| == TileHeight(m) && |Tile(m)[y]| == 6 && MaskBit(m, x, y) == (Tile(m)[y][x] == 'X')
  {
    SmallProductIs(x, y);
    hide Inverts, SmallProduct, Tile0, Tile1, Tile2, Tile3, Tile4, Tile5, Tile6, Tile7;
    match m
    case 0 => TileIs0(x, y, x * y);
    case 1 => TileIs1(x, y, x * y);
    case 2 => TileIs2(x, y, x * y);
    case 3 => TileIs3(x, y, x * y);
    case 4 => TileIs4(x, y, x * y);
    case 5 => TileIs5(x, y, x * y);
    case 6 => TileIs6(x, y, x * y);
    case _ => TileIs7(x, y, x * y);
  }

  /** Adding a multiple of the divisor. */
  lemma ModAdd(a: nat, k: nat, d: nat)
    requires d > 0
    ensures (a + k * d) % d == a % d && (a + k * d) / d == a / d + k
  {
    var q, r := a / d, a % d;
    assert a + k * d == (q + k) * d + r;
    DivUnique(a + k * d, d, q + k, r);
  }

  lemma SumRepeats(a: nat, r: nat, b: nat, s: nat)
    ensures ((6 * a + r) + (6 * b + s)) % 2 == (r + s) % 2
    ensures ((6 * a + r) + (6 * b + s)) % 3 == (r + s) % 3
  {
    ModAdd(r + s, 3 * a + 3 * b, 2);
    ModAdd(r + s, 2 * a + 2 * b, 3);
  }

  lemma ProductRepeats(a: nat, r: nat, b: nat, s: nat)
    ensures (6 * a + r) * (6 * b + s) % 2 == r * s % 2
    ensures (6 * a + r) * (6 * b + s) % 3 == r * s % 3
  {
    var t := 6 * a * b + a * s + r * b;
    assert (6 * a + r) * (6 * b + s) == r * s + 6 * t;
    ModAdd(r * s, 3 * t, 2);
    ModAdd(r * s, 2 * t, 3);
  }

  lemma HalvesRepeat(a: nat, r: nat, b: nat, s: nat)
    ensures ((6 * a + r) / 3 + (4 * b + s) / 2) % 2 == (r / 3 + s / 2) % 2
  {
    ModAdd(r, 2 * a, 3);
    ModAdd(s, 2 * b, 2);
    ModAdd(r / 3 + s / 2, a + b, 2);
  }

  /** All masks repeat after six columns, and after six rows or, for mask 4, four. */
  lemma MaskRepeats(m: MaskId, a: nat, r: nat, b: nat, s: nat)
    ensures MaskBit(m, 6 * a + r, TileHeight(m) * b + s) == MaskBit(m, r, s)
  {
    if m == 4 {
      HalvesRepeat(a, r, b, s);
    } else if m >= 5 {
      SumRepeats(a, r, b, s);
      ProductRepeats(a, r, b, s);
    } else {
      SumRepeats(a, r, b, s);
      ModAdd(r, 2 * a, 3);
      ModAdd(s, 3 * b, 2);
    }
  }

  /** Each mask covers the plane with copies of its tile. */
  lemma MaskPicture(m: MaskId, x: nat, y: nat)
    ensures var h := TileHeight(m);
            |Tile(m)| == h && |Tile(m)[y % h]| == 6 && MaskBit(m, x, y) == (Tile(m)[y % h][x % 6] == 'X')
  {
    hide MaskBit, Tile;
    var h := TileHeight(m);
    TileIsMask(m, x % 6, y % h);
    MaskRepeats(m, x / 6, x % 6, y / h, y % h);
    assert x == 6 * (x / 6) + x % 6 && y == h * (y / h) + y % h;
  }

  // The simple masks in words.

  lemma Checkerboard(x: nat, y: nat)
    ensures MaskBit(0, 0, 0) && MaskBit(0, x + 1, y) == !MaskBit(0, x, y) && MaskBit(0, x, y + 1) == !MaskBit(0, x, y)
  {
  }

  lemma EverySecondRow(x: nat, y: nat)
    ensures MaskBit(1, x, 0) && MaskBit(1, x + 1, y) == MaskBit(1, x, y) && MaskBit(1, x, y + 1) == !MaskBit(1, x, y)
  {
  }

  lemma EveryThirdColumn(x: nat, y: nat)
    ensures MaskBit(2, 0, y) && !MaskBit(2, 1, y) && !MaskBit(2, 2, y) && MaskBit(2, x + 3, y) == MaskBit(2, x, y)
    ensures MaskBit(2, x, y + 1) == MaskBit(2, x, y)
  {
    ModAdd(x, 1, 3);
  }

  lemma EveryThirdDiagonal(x: nat, y: nat)
    ensures MaskBit(3, x, y + 1) == MaskBit(3, x + 1, y) && MaskBit(3, x, 0) == MaskBit(2, x, y)
  {
  }

  lemma CheckerboardOfTiles(x: nat, y: nat)
    ensures x < 3 && y < 2 ==> MaskBit(4, x, y)
    ensures MaskBit(4, x + 3, y) == !MaskBit(4, x, y) && MaskBit(4, x, y + 2) == !MaskBit(4, x, y)
  {
    ModAdd(x, 1, 3);
    ModAdd(y, 1, 2);
  }
}

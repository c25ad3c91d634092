/** The tower's frame buffer as a value: 16 layers of 4 bytes, 32 pixels per
    layer, pixel (y, x) being bit x % 8 of byte x / 8 of layer y.  Each
    buffer operation of the firmware is specified here by a function on such
    a grid, and the lemmas state what those functions mean pixel by pixel. */
module FrameSpec {

  const Layers: int := 16  // height of the tower
  const Bytes: int := 4    // bytes per layer
  const Leds: int := 32    // LEDs per layer
  const On: bv8 := 1       // ON as passed to Switch_Row and Switch_Col

  type Row = seq<bv8>
  type Grid = seq<Row>

  predicate IsGrid(g: Grid) {
    |g| == Layers && forall y :: 0 <= y < |g| ==> |g[y]| == Bytes
  }

  predicate InRange(y: int, x: int) {
    0 <= y < Layers && 0 <= x < Leds
  }

  /** The mask `1 << k` of bit k of a byte. */
  function Bit(k: nat): (b: bv8)
    requires k < 8
  {
    (1 as bv8) << k
  }

  predicate BitSet(b: bv8, k: nat)
    requires k < 8
  {
    b & Bit(k) != 0
  }

  /** Whether LED x of a layer is lit. */
  predicate RowPixel(r: Row, x: int)
    requires |r| == Bytes && 0 <= x < Leds
  {
    BitSet(r[x / 8], x % 8)
  }

  /** Whether the LED at layer y, position x is lit. */
  predicate Pixel(g: Grid, y: int, x: int)
    requires IsGrid(g) && InRange(y, x)
  {
    RowPixel(g[y], x)
  }

  /** Byte b with bit k set (`|= 1 << k`) or cleared (`&= ~(1 << k)`). */
  function PutBit(b: bv8, k: nat, on: bool): (r: bv8)
    requires k < 8
  {
    if on then b | Bit(k) else b & !Bit(k)
  }

  function Blank(): (g: Grid)
    ensures IsGrid(g)
  {
    seq(Layers, _ => seq(Bytes, _ => 0 as bv8))
  }

  /** g with byte i of layer y replaced by b. */
  function SetByte(g: Grid, y: int, i: int, b: bv8): (r: Grid)
    requires IsGrid(g) && 0 <= y < Layers && 0 <= i < Bytes
    ensures IsGrid(r)
  {
    g[y := g[y][i := b]]
  }

  function Complement(b: bv8): (r: bv8) {
    b ^ 0xFF
  }

  /** Invert_Display: every byte XORed with 0xFF. */
  function Inverted(g: Grid): (r: Grid)
    requires IsGrid(g)
    ensures IsGrid(r)
  {
    seq(Layers, y requires 0 <= y < Layers =>
      seq(Bytes, i requires 0 <= i < Bytes => Complement(g[y][i])))
  }

  /** Switch_Pixel(y, x, state) with `on` standing for `state != 0`. */
  function WithPixel(g: Grid, y: int, x: int, on: bool): (r: Grid)
    requires IsGrid(g) && InRange(y, x)
    ensures IsGrid(r)
  {
    SetByte(g, y, x / 8, PutBit(g[y][x / 8], x % 8, on))
  }

  /** Switch_Row(l, state) with `on` standing for `state == ON`. */
  function WithRow(g: Grid, l: int, on: bool): (r: Grid)
    requires IsGrid(g) && 0 <= l < Layers
    ensures IsGrid(r)
  {
    g[l := seq(Bytes, _ => if on then 0xFF as bv8 else 0)]
  }

  /** Switch_Col(c, state) with `on` standing for `state == ON`. */
  function WithColumn(g: Grid, c: int, on: bool): (r: Grid)
    requires IsGrid(g) && 0 <= c < Leds
    ensures IsGrid(r)
  {
    seq(Layers, y requires 0 <= y < Layers =>
      g[y][c / 8 := PutBit(g[y][c / 8], c % 8, on)])
  }

  /** A byte moved up one bit, taking bit 7 of `prev` into bit 0. */
  function CarriedIn(b: bv8, prev: bv8): (r: bv8) {
    (b << 1) | (prev >> 7)
  }

  /** One row of Shift_Right: each byte moves up one bit and takes bit 7 of
      the byte before it, byte 0 taking bit 7 of byte 3. */
  function RotatedRow(r: Row): (s: Row)
    requires |r| == Bytes
    ensures |s| == Bytes
  {
    [CarriedIn(r[0], r[3]), CarriedIn(r[1], r[0]), CarriedIn(r[2], r[1]), CarriedIn(r[3], r[2])]
  }

  function ShiftedRight(g: Grid): (r: Grid)
    requires IsGrid(g)
    ensures IsGrid(r)
  {
    seq(Layers, y requires 0 <= y < Layers => RotatedRow(g[y]))
  }

  /** Shift_Down: layer 15 comes round to layer 0, the rest move up one index. */
  function ShiftedDown(g: Grid): (r: Grid)
    requires IsGrid(g)
    ensures IsGrid(r)
  {
    [g[Layers - 1]] + g[..Layers - 1]
  }

  function RotatedRowN(r: Row, n: nat): (s: Row)
    requires |r| == Bytes
    ensures |s| == Bytes
    decreases n
  {
    if n == 0 then r else RotatedRow(RotatedRowN(r, n - 1))
  }

  function ShiftedRightN(g: Grid, n: nat): (r: Grid)
    requires IsGrid(g)
    ensures IsGrid(r)
    decreases n
  {
    if n == 0 then g else ShiftedRight(ShiftedRightN(g, n - 1))
  }

  function ShiftedDownN(g: Grid, n: nat): (r: Grid)
    requires IsGrid(g)
    ensures IsGrid(r)
    decreases n
  {
    if n == 0 then g else ShiftedDown(ShiftedDownN(g, n - 1))
  }

  /** The buffer after Get_Pixel(y, x): its test `LED_Buffer[y][x/8] &= mask`
      is an assignment, so the byte keeps only the tested bit. */
  function MaskedAt(g: Grid, y: int, x: int): (r: Grid)
    requires IsGrid(g) && InRange(y, x)
    ensures IsGrid(r)
  {
    SetByte(g, y, x / 8, g[y][x / 8] & Bit(x % 8))
  }

  /** What Get_Pixel(y, x) returns: the masked byte compared with 1. */
  function GetPixelValue(g: Grid, y: int, x: int): (r: bv8)
    requires IsGrid(g) && InRange(y, x)
  {
    if g[y][x / 8] & Bit(x % 8) == 1 then 1 else 0
  }

  // ---------------------------------------------------------------------
  // Bytes and pixels

  /** A byte is determined by its eight bits. */
  lemma ByteFromBits(a: bv8, b: bv8)
    requires forall k :: 0 <= k < 8 ==> BitSet(a, k) == BitSet(b, k)
    ensures a == b
  {
    forall k | 0 <= k < 8
      ensures (a ^ b) & Bit(k) == 0
    {
      assert BitSet(a, k) == BitSet(b, k);
    }
    assert (a ^ b) & Bit(0) == 0 && (a ^ b) & Bit(1) == 0 && (a ^ b) & Bit(2) == 0 && (a ^ b) & Bit(3) == 0;
    assert (a ^ b) & Bit(4) == 0 && (a ^ b) & Bit(5) == 0 && (a ^ b) & Bit(6) == 0 && (a ^ b) & Bit(7) == 0;
  }

  /** Two layers showing the same LEDs are the same layer. */
  lemma RowFromPixels(r: Row, s: Row)
    requires |r| == Bytes && |s| == Bytes
    requires forall x :: 0 <= x < Leds ==> RowPixel(r, x) == RowPixel(s, x)
    ensures r == s
  {
    forall i | 0 <= i < Bytes
      ensures r[i] == s[i]
    {
      forall k | 0 <= k < 8
        ensures BitSet(r[i], k) == BitSet(s[i], k)
      {
        var x := 8 * i + k;
        assert x / 8 == i && x % 8 == k;
        assert RowPixel(r, x) == RowPixel(s, x);
      }
      ByteFromBits(r[i], s[i]);
    }
  }

  /** Two grids showing the same pixels everywhere are the same grid. */
  lemma GridFromPixels(g: Grid, h: Grid)
    requires IsGrid(g) && IsGrid(h)
    requires forall y, x :: InRange(y, x) ==> Pixel(g, y, x) == Pixel(h, y, x)
    ensures g == h
  {
    forall y | 0 <= y < Layers
      ensures g[y] == h[y]
    {
      forall x | 0 <= x < Leds
        ensures RowPixel(g[y], x) == RowPixel(h[y], x)
      {
        assert Pixel(g, y, x) == Pixel(h, y, x);
      }
      RowFromPixels(g[y], h[y]);
    }
  }

  lemma PutBitBits(b: bv8, k: nat, on: bool, j: nat)
    requires k < 8 && j < 8
    ensures BitSet(PutBit(b, k, on), j) == if j == k then on else BitSet(b, j)
  {
    if j != k {
      assert Bit(k) & Bit(j) == 0;
    }
  }

  /** Two positions of one row share a byte and a bit only if they are equal. */
  lemma SamePosition(x: int, x2: int)
    requires 0 <= x < Leds && 0 <= x2 < Leds
    ensures (x2 / 8 == x / 8 && x2 % 8 == x % 8) <==> x2 == x
  {
  }

  // ---------------------------------------------------------------------
  // What each operation does to the pixels

  lemma BlankIsDark(y: int, x: int)
    requires InRange(y, x)
    ensures !Pixel(Blank(), y, x)
  {
  }

  lemma InvertedPixel(g: Grid, y: int, x: int)
    requires IsGrid(g) && InRange(y, x)
    ensures Pixel(Inverted(g), y, x) == !Pixel(g, y, x)
  {
  }

  /** Invert_Display twice gives back the buffer it started from. */
  lemma InvertedTwice(g: Grid)
    requires IsGrid(g)
    ensures Inverted(Inverted(g)) == g
  {
    forall y, x | InRange(y, x)
      ensures Pixel(Inverted(Inverted(g)), y, x) == Pixel(g, y, x)
    {
      InvertedPixel(g, y, x);
      InvertedPixel(Inverted(g), y, x);
    }
    GridFromPixels(Inverted(Inverted(g)), g);
  }

  /** Switch_Pixel lights or darkens exactly the addressed LED. */
  lemma WithPixelPixel(g: Grid, y: int, x: int, on: bool, y2: int, x2: int)
    requires IsGrid(g) && InRange(y, x) && InRange(y2, x2)
    ensures Pixel(WithPixel(g, y, x, on), y2, x2)
            == if y2 == y && x2 == x then on else Pixel(g, y2, x2)
  {
    SamePosition(x, x2);
    if y2 == y && x2 / 8 == x / 8 {
      PutBitBits(g[y][x / 8], x % 8, on, x2 % 8);
    }
  }

  /** Switch_Row lights or darkens all of layer l and nothing else. */
  lemma WithRowPixel(g: Grid, l: int, on: bool, y: int, x: int)
    requires IsGrid(g) && 0 <= l < Layers && InRange(y, x)
    ensures Pixel(WithRow(g, l, on), y, x) == if y == l then on else Pixel(g, y, x)
  {
    if y == l {
      var k := x % 8;
      assert k == 0 || k == 1 || k == 2 || k == 3 || k == 4 || k == 5 || k == 6 || k == 7;
    }
  }

  /** Switch_Col lights or darkens position c of every layer and nothing else. */
  lemma WithColumnPixel(g: Grid, c: int, on: bool, y: int, x: int)
    requires IsGrid(g) && 0 <= c < Leds && InRange(y, x)
    ensures Pixel(WithColumn(g, c, on), y, x) == if x == c then on else Pixel(g, y, x)
  {
    SamePosition(c, x);
    if x / 8 == c / 8 {
      PutBitBits(g[y][c / 8], c % 8, on, x % 8);
    }
  }

  lemma ShiftInBit(b: bv8, prev: bv8, k: nat)
    requires 1 <= k < 8
    ensures BitSet(CarriedIn(b, prev), k) == BitSet(b, k - 1)
  {
  }

  lemma ShiftInCarry(b: bv8, prev: bv8)
    ensures BitSet(CarriedIn(b, prev), 0) == BitSet(prev, 7)
  {
  }

  /** Byte i of a rotated row, with byte 0 taking its carry from byte 3. */
  lemma RotatedRowByte(r: Row, i: int)
    requires |r| == Bytes && 0 <= i < Bytes
    ensures RotatedRow(r)[i] == CarriedIn(r[i], if i == 0 then r[Bytes - 1] else r[i - 1])
  {
  }

  /** Within one row, bit k of byte i moves to bit k + 1, and bit 7 of byte i
      to bit 0 of the next byte round. */
  lemma RotatedRowBit(r: Row, i: int, k: nat)
    requires |r| == Bytes && 0 <= i < Bytes && k < 8
    ensures k < 7 ==> BitSet(RotatedRow(r)[i], k + 1) == BitSet(r[i], k)
    ensures k == 7 ==> BitSet(RotatedRow(r)[(i + 1) % Bytes], 0) == BitSet(r[i], 7)
  {
    if k < 7 {
      ShiftInBit(r[i], r[(i + Bytes - 1) % Bytes], k + 1);
    } else {
      var j := (i + 1) % Bytes;
      assert (j + Bytes - 1) % Bytes == i;
      ShiftInCarry(r[j], r[i]);
    }
  }

  /** One step of Shift_Right moves LED x of a layer to position x + 1,
      LED 31 coming round to position 0. */
  lemma RotatedRowPixel(r: Row, x: int)
    requires |r| == Bytes && 0 <= x < Leds
    ensures RowPixel(RotatedRow(r), (x + 1) % Leds) == RowPixel(r, x)
  {
    var i, k := x / 8, x % 8;
    var x2 := (x + 1) % Leds;
    assert x == 8 * i + k;
    if k < 7 {
      assert x2 == 8 * i + (k + 1);
      assert x2 / 8 == i && x2 % 8 == k + 1;
    } else if i < Bytes - 1 {
      assert x2 == 8 * (i + 1);
      assert x2 / 8 == (i + 1) % Bytes && x2 % 8 == 0;
    } else {
      assert x2 == 0;
    }
    RotatedRowBit(r, i, k);
  }

  lemma ModSucc(m: int, r: int, m1: int)
    requires r == m % Leds && m1 == m + 1
    ensures (r + 1) % Leds == m1 % Leds
  {
    var q := m / Leds;
    assert m == Leds * q + r;
    if r + 1 < Leds {
      assert m + 1 == Leds * q + (r + 1);
    } else {
      assert m + 1 == Leds * (q + 1);
    }
  }

  lemma {:induction false} RotatedRowNPixel(r: Row, n: nat, x: int)
    requires |r| == Bytes && 0 <= x < Leds
    ensures RowPixel(RotatedRowN(r, n), (x + n) % Leds) == RowPixel(r, x)
    decreases n
  {
    if n == 0 {
      assert (x + n) % Leds == x;
    } else {
      var m: nat := n - 1;
      var x1 := (x + m) % Leds;
      RotatedRowNPixel(r, m, x);
      RotatedRowPixel(RotatedRowN(r, m), x1);
      ModSucc(x + m, x1, x + n);
    }
  }

  lemma FullTurns(x: int, n: nat)
    requires 0 <= x < Leds && n % Leds == 0
    ensures (x + n) % Leds == x
  {
    assert x + n == Leds * (n / Leds) + x;
  }

  /** A layer rotated any multiple of 32 times is the layer it was. */
  lemma RotatedRowFullTurns(r: Row, n: nat)
    requires |r| == Bytes && n % Leds == 0
    ensures RotatedRowN(r, n) == r
  {
    forall x | 0 <= x < Leds
      ensures RowPixel(RotatedRowN(r, n), x) == RowPixel(r, x)
    {
      RotatedRowNPixel(r, n, x);
      FullTurns(x, n);
    }
    RowFromPixels(RotatedRowN(r, n), r);
  }

  /** Shift_Right treats every layer independently. */
  lemma {:induction false} ShiftedRightNLayer(g: Grid, n: nat, y: int)
    requires IsGrid(g) && 0 <= y < Layers
    ensures ShiftedRightN(g, n)[y] == RotatedRowN(g[y], n)
    decreases n
  {
    if n > 0 {
      var m: nat := n - 1;
      ShiftedRightNLayer(g, m, y);
    }
  }

  /** Shift_Right moves every LED one position along its layer, position 31
      coming round to position 0. */
  lemma ShiftedRightPixel(g: Grid, y: int, x: int)
    requires IsGrid(g) && InRange(y, x)
    ensures Pixel(ShiftedRight(g), y, (x + 1) % Leds) == Pixel(g, y, x)
  {
    RotatedRowPixel(g[y], x);
  }

  /** n applications of Shift_Right move every LED n positions round its layer. */
  lemma ShiftedRightNPixel(g: Grid, n: nat, y: int, x: int)
    requires IsGrid(g) && InRange(y, x)
    ensures Pixel(ShiftedRightN(g, n), y, (x + n) % Leds) == Pixel(g, y, x)
  {
    ShiftedRightNLayer(g, n, y);
    RotatedRowNPixel(g[y], n, x);
  }

  /** Shift_Right repeated any multiple of 32 times gives back the original
      buffer. */
  lemma ShiftedRightFullTurns(g: Grid, n: nat)
    requires IsGrid(g) && n % Leds == 0
    ensures ShiftedRightN(g, n) == g
  {
    forall y | 0 <= y < Layers
      ensures ShiftedRightN(g, n)[y] == g[y]
    {
      ShiftedRightNLayer(g, n, y);
      RotatedRowFullTurns(g[y], n);
    }
  }

  /** Shift_Down: layer y takes the old layer y - 1, layer 0 the old layer 15. */
  lemma ShiftedDownLayer(g: Grid, y: int)
    requires IsGrid(g) && 0 <= y < Layers
    ensures ShiftedDown(g)[y] == if y == 0 then g[Layers - 1] else g[y - 1]
  {
  }

  lemma LayerPred(y: int, y1: int, m: int, n: int)
    requires 0 <= y < Layers && y1 == (if y == 0 then Layers - 1 else y - 1) && n == m + 1
    ensures (y1 - m) % Layers == (y - n) % Layers
  {
    var q := (y - n) / Layers;
    assert y - n == Layers * q + (y - n) % Layers;
    if y == 0 {
      assert y1 - m == Layers * (q + 1) + (y - n) % Layers;
    } else {
      assert y1 - m == y - n;
    }
  }

  lemma {:induction false} ShiftedDownNLayer(g: Grid, n: nat, y: int)
    requires IsGrid(g) && 0 <= y < Layers
    ensures ShiftedDownN(g, n)[y] == g[(y - n) % Layers]
    decreases n
  {
    if n == 0 {
      assert (y - n) % Layers == y;
    } else {
      var m: nat := n - 1;
      var y1 := if y == 0 then Layers - 1 else y - 1;
      ShiftedDownLayer(ShiftedDownN(g, m), y);
      ShiftedDownNLayer(g, m, y1);
      LayerPred(y, y1, m, n);
    }
  }

  lemma LayerTurns(y: int, n: nat)
    requires 0 <= y < Layers && n % Layers == 0
    ensures (y - n) % Layers == y
  {
    assert y - n == Layers * (-(n / Layers)) + y;
  }

  /** Shift_Down repeated any multiple of 16 times gives back the original
      buffer. */
  lemma ShiftedDownFullTurns(g: Grid, n: nat)
    requires IsGrid(g) && n % Layers == 0
    ensures ShiftedDownN(g, n) == g
  {
    forall y | 0 <= y < Layers
      ensures ShiftedDownN(g, n)[y] == g[y]
    {
      ShiftedDownNLayer(g, n, y);
      LayerTurns(y, n);
    }
  }

  // ---------------------------------------------------------------------
  // Get_Pixel as written

  /** Get_Pixel(y, x) answers 1 only for a lit LED at a position that is a
      multiple of 8: elsewhere the masked byte is a power of two above 1. */
  lemma GetPixelAnswer(g: Grid, y: int, x: int)
    requires IsGrid(g) && InRange(y, x)
    ensures GetPixelValue(g, y, x) == 1 <==> x % 8 == 0 && Pixel(g, y, x)
    ensures GetPixelValue(g, y, x) == 0 || GetPixelValue(g, y, x) == 1
  {
    var k := x % 8;
    assert k == 0 || k == 1 || k == 2 || k == 3 || k == 4 || k == 5 || k == 6 || k == 7;
  }

  /** Get_Pixel(y, x) darkens the other seven LEDs of the byte it reads and
      leaves every other LED, the one it reads included, as it was. */
  lemma MaskedAtPixel(g: Grid, y: int, x: int, y2: int, x2: int)
    requires IsGrid(g) && InRange(y, x) && InRange(y2, x2)
    ensures Pixel(MaskedAt(g, y, x), y2, x2)
            == if y2 == y && x2 / 8 == x / 8 && x2 != x then false else Pixel(g, y2, x2)
  {
    SamePosition(x, x2);
  }

  /** A lit LED at position 1 reads as dark, and reading LED 0 of a byte
      darkens LED 1 of it. */
  lemma GetPixelCounterexample()
    ensures Pixel(WithPixel(Blank(), 0, 1, true), 0, 1)
    ensures GetPixelValue(WithPixel(Blank(), 0, 1, true), 0, 1) == 0
    ensures !Pixel(MaskedAt(WithPixel(Blank(), 0, 1, true), 0, 0), 0, 1)
  {
    WithPixelPixel(Blank(), 0, 1, true, 0, 1);
    MaskedAtPixel(WithPixel(Blank(), 0, 1, true), 0, 0, 0, 1);
  }
}

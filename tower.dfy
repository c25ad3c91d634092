/** The firmware's display state: the global `LED_Buffer[16][4]`, the scratch
    layer `g_temp` used by Shift_Down, and the serial bus, as one object.
    Every operation rewrites the buffer in place, as the firmware does, and is
    proved against the grid function of FrameSpec that specifies it. */
module Tower {
  import opened FrameSpec
  import opened Serial

  class LedTower {
    /** LED_Buffer: layer y, byte i. */
    const buf: array2<bv8>
    /** g_temp[0]: the layer Shift_Down carries round. */
    const temp: array<bv8>

    /** The buffer as a grid value. */
    ghost var Contents: Grid
    /** Everything written to TXREG and LE so far. */
    ghost var Trace: seq<Event>

    ghost predicate Valid()
      reads this`Contents, buf
    {
      buf.Length0 == Layers && buf.Length1 == Bytes && temp.Length == Bytes &&
      IsGrid(Contents) &&
      forall y, i :: 0 <= y < Layers && 0 <= i < Bytes ==> buf[y, i] == Contents[y][i]
    }

    /** The tower at reset: `LED_Buffer = {0}`, nothing sent yet. */
    constructor ()
      ensures Valid() && fresh(buf) && fresh(temp)
      ensures Contents == Blank() && Trace == []
    {
      buf := new bv8[Layers, Bytes]((y, i) => 0);
      temp := new bv8[Bytes](i => 0);
      Contents := Blank();
      Trace := [];
    }

    /** Update_Display: the 64 bytes go out layer by layer, then LE is pulsed;
        the buffer is only read. */
    method UpdateDisplay()
      requires Valid()
      modifies this`Trace
      ensures Valid()
      ensures Trace == old(Trace) + FrameEvents(Contents)
    {
      for y := 0 to Layers
        invariant Trace == old(Trace) + Serialized(Contents[..y])
      {
        ghost var before, row := Trace, Contents[y];
        for x := 0 to Bytes
          invariant Trace == before + RowEvents(row[..x])
        {
          Trace := Trace + [Byte(buf[y, x])];
          assert row[..x + 1][..x] == row[..x];
        }
        assert row[..Bytes] == row;
        assert Contents[..y + 1][..y] == Contents[..y];
      }
      assert Contents[..Layers] == Contents;
      Trace := Trace + [LatchHigh];
      Trace := Trace + [LatchLow];
    }

    /** Clear_Buffer: every byte becomes 0; nothing is sent. */
    method ClearBuffer()
      requires Valid()
      modifies buf, this`Contents
      ensures Valid()
      ensures Contents == Blank()
    {
      ghost var target := Blank();
      for y := 0 to Layers
        modifies buf
        invariant forall y', i' :: 0 <= y' < Layers && 0 <= i' < Bytes ==>
                    buf[y', i'] == if y' < y then target[y'][i'] else Contents[y'][i']
      {
        for i := 0 to Bytes
          modifies buf
          invariant forall y', i' :: 0 <= y' < Layers && 0 <= i' < Bytes ==>
                      buf[y', i'] == if y' < y || (y' == y && i' < i) then target[y'][i']
                                     else Contents[y'][i']
        {
          buf[y, i] := 0;
        }
      }
      Contents := target;
    }

    /** Invert_Display: every byte is XORed with 0xFF, then the frame is sent. */
    method InvertDisplay()
      requires Valid()
      modifies buf, this`Contents, this`Trace
      ensures Valid()
      ensures Contents == Inverted(old(Contents))
      ensures Trace == old(Trace) + FrameEvents(Contents)
    {
      ghost var target := Inverted(Contents);
      for y := 0 to Layers
        modifies buf
        invariant forall y', i' :: 0 <= y' < Layers && 0 <= i' < Bytes ==>
                    buf[y', i'] == if y' < y then target[y'][i'] else Contents[y'][i']
      {
        for i := 0 to Bytes
          modifies buf
          invariant forall y', i' :: 0 <= y' < Layers && 0 <= i' < Bytes ==>
                      buf[y', i'] == if y' < y || (y' == y && i' < i) then target[y'][i']
                                     else Contents[y'][i']
        {
          buf[y, i] := buf[y, i] ^ 0xFF;
        }
      }
      Contents := target;
      UpdateDisplay();
    }

    /** Switch_Pixel: sets (state != 0) or clears (state == 0) one bit, then
        sends the frame. */
    method SwitchPixel(y: int, x: int, state: bv8)
      requires Valid() && InRange(y, x)
      modifies buf, this`Contents, this`Trace
      ensures Valid()
      ensures Contents == WithPixel(old(Contents), y, x, state != 0)
      ensures Trace == old(Trace) + FrameEvents(Contents)
    {
      ghost var target := WithPixel(Contents, y, x, state != 0);
      var i, k := x / 8, x % 8;
      assert target == Contents[y := Contents[y][i := PutBit(Contents[y][i], k, state != 0)]];
      if state != 0 {
        buf[y, i] := buf[y, i] | Bit(k);
      } else {
        buf[y, i] := buf[y, i] & !Bit(k);
      }
      Contents := target;
      UpdateDisplay();
    }

    /** Get_Pixel as the firmware has it: the byte is overwritten with its
        masked value, and the answer is whether that value equals 1. */
    method GetPixel(y: int, x: int) returns (r: bv8)
      requires Valid() && InRange(y, x)
      modifies buf, this`Contents
      ensures Valid()
      ensures Contents == MaskedAt(old(Contents), y, x)
      ensures r == GetPixelValue(old(Contents), y, x)
      ensures r == 1 <==> x % 8 == 0 && Pixel(old(Contents), y, x)
      ensures r == 0 || r == 1
    {
      GetPixelAnswer(Contents, y, x);
      var i := x / 8;
      buf[y, i] := buf[y, i] & Bit(x % 8);
      Contents := MaskedAt(Contents, y, x);
      if buf[y, i] == 1 {
        r := 1;
      } else {
        r := 0;
      }
    }

    /** The read Get_Pixel is meant to be: the addressed bit, with nothing
        written. */
    method ReadPixel(y: int, x: int) returns (on: bool)
      requires Valid() && InRange(y, x)
      ensures on == Pixel(Contents, y, x)
    {
      on := buf[y, x / 8] & Bit(x % 8) != 0;
    }

    /** Switch_Row: layer l all lit when state == ON, all dark for any other
        state; then the frame is sent. */
    method SwitchRow(l: int, state: bv8)
      requires Valid() && 0 <= l < Layers
      modifies buf, this`Contents, this`Trace
      ensures Valid()
      ensures Contents == WithRow(old(Contents), l, state == On)
      ensures Trace == old(Trace) + FrameEvents(Contents)
    {
      ghost var target := WithRow(Contents, l, state == On);
      if state == On {
        for x := 0 to Bytes
          modifies buf
          invariant forall y', i' :: 0 <= y' < Layers && 0 <= i' < Bytes ==>
                      buf[y', i'] == if y' == l && i' < x then target[y'][i'] else Contents[y'][i']
        {
          buf[l, x] := 0xFF;
        }
      } else {
        for x := 0 to Bytes
          modifies buf
          invariant forall y', i' :: 0 <= y' < Layers && 0 <= i' < Bytes ==>
                      buf[y', i'] == if y' == l && i' < x then target[y'][i'] else Contents[y'][i']
        {
          buf[l, x] := 0;
        }
      }
      Contents := target;
      UpdateDisplay();
    }

    /** Switch_Col: bit c % 8 of byte c / 8 set in every layer when
        state == ON, cleared for any other state; then the frame is sent. */
    method SwitchCol(c: int, state: bv8)
      requires Valid() && 0 <= c < Leds
      modifies buf, this`Contents, this`Trace
      ensures Valid()
      ensures Contents == WithColumn(old(Contents), c, state == On)
      ensures Trace == old(Trace) + FrameEvents(Contents)
    {
      ghost var target := WithColumn(Contents, c, state == On);
      var i, k := c / 8, c % 8;
      if state == On {
        for y := 0 to Layers
          modifies buf
          invariant forall y', i' :: 0 <= y' < Layers && 0 <= i' < Bytes ==>
                      buf[y', i'] == if y' < y then target[y'][i'] else Contents[y'][i']
        {
          buf[y, i] := buf[y, i] | Bit(k);
        }
      } else {
        for y := 0 to Layers
          modifies buf
          invariant forall y', i' :: 0 <= y' < Layers && 0 <= i' < Bytes ==>
                      buf[y', i'] == if y' < y then target[y'][i'] else Contents[y'][i']
        {
          buf[y, i] := buf[y, i] & !Bit(k);
        }
      }
      Contents := target;
      UpdateDisplay();
    }

    /** Shift_Right: every layer rotated by one LED, the carry threaded from
        byte to byte; nothing is sent. */
    method ShiftRight()
      requires Valid()
      modifies buf, this`Contents
      ensures Valid()
      ensures Contents == ShiftedRight(old(Contents))
    {
      ghost var target := ShiftedRight(Contents);
      for row := 0 to Layers
        modifies buf
        invariant forall y', i' :: 0 <= y' < row && 0 <= i' < Bytes ==> buf[y', i'] == target[y'][i']
        invariant forall y', i' :: row <= y' < Layers && 0 <= i' < Bytes ==> buf[y', i'] == Contents[y'][i']
      {
        ghost var r, t := Contents[row], target[row];
        assert t == RotatedRow(r);
        var carry := buf[row, Bytes - 1] >> 7;
        label Layer:
        for i := 0 to Bytes
          modifies buf
          invariant i == 0 ==> carry == r[Bytes - 1] >> 7
          invariant i > 0 ==> carry == r[i - 1] >> 7
          invariant forall i' :: 0 <= i' < i ==> buf[row, i'] == t[i']
          invariant forall i' :: i <= i' < Bytes ==> buf[row, i'] == r[i']
          invariant forall y', i' :: 0 <= y' < Layers && y' != row && 0 <= i' < Bytes ==>
                      buf[y', i'] == old@Layer(buf[y', i'])
        {
          ghost var prev := if i == 0 then r[Bytes - 1] else r[i - 1];
          RotatedRowByte(r, i);
          var nextCarry := buf[row, i] >> 7;
          buf[row, i] := (buf[row, i] << 1) | carry;
          assert buf[row, i] == t[i];
          carry := nextCarry;
        }
      }
      Contents := target;
    }

    /** Shift_Down(d): layer 15 saved in g_temp, layers 15..1 each given the
        layer below, g_temp written to layer 0, then the frame is sent.  The
        delay of d milliseconds that follows is not modelled. */
    method ShiftDown(d: int)
      requires Valid()
      modifies buf, temp, this`Contents, this`Trace
      ensures Valid()
      ensures Contents == ShiftedDown(old(Contents))
      ensures temp[..] == old(Contents)[Layers - 1]
      ensures Trace == old(Trace) + FrameEvents(Contents)
    {
      ghost var target := ShiftedDown(Contents);
      for y := 0 to Bytes
        modifies temp
        invariant forall i' :: 0 <= i' < y ==> temp[i'] == Contents[Layers - 1][i']
      {
        temp[y] := buf[Layers - 1, y];
      }
      var y := Layers - 1;
      while y > 0
        modifies buf
        invariant 0 <= y < Layers
        invariant forall y', i' :: 0 <= y' < Layers && 0 <= i' < Bytes ==>
                    buf[y', i'] == if y' > y then target[y'][i'] else Contents[y'][i']
      {
        for x := 0 to Bytes
          modifies buf
          invariant forall y', i' :: 0 <= y' < Layers && 0 <= i' < Bytes ==>
                      buf[y', i'] == if y' > y || (y' == y && i' < x) then target[y'][i']
                                     else Contents[y'][i']
        {
          buf[y, x] := buf[y - 1, x];
        }
        y := y - 1;
      }
      for y := 0 to Bytes
        modifies buf
        invariant forall y', i' :: 0 <= y' < Layers && 0 <= i' < Bytes ==>
                    buf[y', i'] == if y' > 0 || i' < y then target[y'][i'] else Contents[y'][i']
      {
        buf[0, y] := temp[y];
      }
      assert temp[..] == Contents[Layers - 1];
      Contents := target;
      UpdateDisplay();
    }
  }
}

/** What Update_Display puts on the wire: the frame's 64 bytes, layer by
    layer and byte by byte, through the synchronous serial port, then a pulse
    on the latch-enable line LE. */
module Serial {
  import opened FrameSpec
  import opened Wrappers

  datatype Event =
    | Byte(value: bv8)  // one write to TXREG
    | LatchHigh         // LE = 1
    | LatchLow          // LE = 0

  /** The writes of one layer's bytes, in order. */
  function RowEvents(r: Row): (ev: seq<Event>)
    decreases |r|
  {
    if r == [] then [] else RowEvents(r[..|r| - 1]) + [Byte(r[|r| - 1])]
  }

  /** The writes of a sequence of layers, in order. */
  function Serialized(rows: seq<Row>): (ev: seq<Event>)
    decreases |rows|
  {
    if rows == [] then [] else Serialized(rows[..|rows| - 1]) + RowEvents(rows[|rows| - 1])
  }

  /** One refresh of the tower: all bytes, then the latch pulse. */
  function FrameEvents(g: Grid): (ev: seq<Event>)
    requires IsGrid(g)
  {
    Serialized(g) + [LatchHigh, LatchLow]
  }

  lemma {:induction false} RowEventsAt(r: Row)
    ensures |RowEvents(r)| == |r|
    ensures forall i :: 0 <= i < |r| ==> RowEvents(r)[i] == Byte(r[i])
    decreases |r|
  {
    if r != [] {
      RowEventsAt(r[..|r| - 1]);
    }
  }

  /** The events of k layers of four bytes: byte i of layer y is event 4y + i. */
  lemma {:induction false} SerializedAt(rows: seq<Row>)
    requires forall y :: 0 <= y < |rows| ==> |rows[y]| == Bytes
    ensures |Serialized(rows)| == Bytes * |rows|
    ensures forall y, i :: 0 <= y < |rows| && 0 <= i < Bytes ==>
              Serialized(rows)[Bytes * y + i] == Byte(rows[y][i])
    decreases |rows|
  {
    if rows != [] {
      var k := |rows| - 1;
      var front := rows[..k];
      SerializedAt(front);
      RowEventsAt(rows[k]);
      assert Serialized(rows) == Serialized(front) + RowEvents(rows[k]);
      forall y, i | 0 <= y < |rows| && 0 <= i < Bytes
        ensures Serialized(rows)[Bytes * y + i] == Byte(rows[y][i])
      {
        if y < k {
          assert front[y] == rows[y];
        } else {
          assert Bytes * y + i == Bytes * k + i;
        }
      }
    }
  }

  /** A refresh is exactly 64 byte writes, LED_Buffer[0][0] first and
      LED_Buffer[15][3] last, followed by LE high and then LE low. */
  lemma FrameLayout(g: Grid)
    requires IsGrid(g)
    ensures |FrameEvents(g)| == Layers * Bytes + 2
    ensures forall y, i :: 0 <= y < Layers && 0 <= i < Bytes ==>
              FrameEvents(g)[Bytes * y + i] == Byte(g[y][i])
    ensures FrameEvents(g)[Layers * Bytes] == LatchHigh
    ensures FrameEvents(g)[Layers * Bytes + 1] == LatchLow
  {
    SerializedAt(g);
  }

  /** The frame a receiver on the bus reads back from one refresh: 64 byte
      writes and a latch pulse, or nothing if the events are not of that shape. */
  function Received(ev: seq<Event>): (r: Option<Grid>)
    ensures r.Some? ==> IsGrid(r.value)
  {
    if |ev| == Layers * Bytes + 2
       && (forall j :: 0 <= j < Layers * Bytes ==> ev[j].Byte?)
       && ev[Layers * Bytes] == LatchHigh && ev[Layers * Bytes + 1] == LatchLow
    then Some(seq(Layers, y requires 0 <= y < Layers =>
                seq(Bytes, i requires 0 <= i < Bytes => ev[Bytes * y + i].value)))
    else None
  }

  /** The chain of drivers latches exactly the frame that was sent. */
  lemma ReceivedFrame(g: Grid)
    requires IsGrid(g)
    ensures Received(FrameEvents(g)) == Some(g)
  {
    var ev := FrameEvents(g);
    FrameLayout(g);
    forall j | 0 <= j < Layers * Bytes
      ensures ev[j].Byte?
    {
      var y, i := j / Bytes, j % Bytes;
      assert j == Bytes * y + i && 0 <= y < Layers && 0 <= i < Bytes;
      assert ev[Bytes * y + i] == Byte(g[y][i]);
    }
    var r := Received(ev).value;
    forall y | 0 <= y < Layers
      ensures r[y] == g[y]
    {
      forall i | 0 <= i < Bytes
        ensures r[y][i] == g[y][i]
      {
        assert ev[Bytes * y + i] == Byte(g[y][i]);
      }
    }
    assert r == g;
  }
}

/** A linear 32-bit framebuffer: pixels and padding as disjoint parts of one byte string. */
module PixelBuffer {
  import opened Words
  import opened Bytes

  const PIXEL_BYTES := 4

  /** Pitch is the distance of two scan lines in bytes, padding included. */
  datatype Mode = Mode(pitch: u32, width: u32, height: u32)

  predicate ValidMode(mode: Mode) {
    PIXEL_BYTES * mode.width <= mode.pitch && mode.pitch * mode.height < TWO_32
  }

  predicate Holds(buf: bytes, mode: Mode) { ValidMode(mode) && |buf| >= mode.pitch * mode.height }

  function Row(mode: Mode, y: nat): nat { y * mode.pitch }

  /** Lines do not overlap and lie inside the buffer; offsets fit 32 bits. */
  lemma RowsApart(mode: Mode, y: nat, z: nat)
    requires ValidMode(mode) && y < mode.height
    ensures Row(mode, y) + mode.pitch <= mode.pitch * mode.height < TWO_32
    ensures y < z ==> Row(mode, y) + mode.pitch <= Row(mode, z)
    ensures Row(mode, y) + PIXEL_BYTES * mode.width <= Row(mode, y) + mode.pitch
  {
    NextMultiple(y, mode.height, mode.pitch);
    if y < z {
      NextMultiple(y, z, mode.pitch);
    }
  }

  lemma NextMultiple(a: nat, b: nat, p: nat)
    requires a < b
    ensures a * p + p <= b * p
  {
    assert (a + 1) * p <= b * p;
  }

  predicate OnScreen(mode: Mode, x: int, y: int) { 0 <= x < mode.width && 0 <= y < mode.height }

  /** The four bytes of a pixel. */
  function Pixel(buf: bytes, mode: Mode, x: nat, y: nat): (r: bytes)
    requires Holds(buf, mode) && OnScreen(mode, x, y)
    ensures |r| == PIXEL_BYTES
  {
    RowsApart(mode, y, y);
    buf[Row(mode, y) + PIXEL_BYTES * x..Row(mode, y) + PIXEL_BYTES * x + PIXEL_BYTES]
  }

  /** The bytes after the last pixel of a line. */
  function Padding(buf: bytes, mode: Mode, y: nat): bytes
    requires Holds(buf, mode) && y < mode.height
  {
    RowsApart(mode, y, y);
    buf[Row(mode, y) + PIXEL_BYTES * mode.width..Row(mode, y) + mode.pitch]
  }

  /** Padding of every line, and everything after the last line, is the same. */
  ghost predicate SamePadding(a: bytes, b: bytes, mode: Mode) {
    && Holds(a, mode) && Holds(b, mode) && |a| == |b|
    && (forall y | 0 <= y < mode.height :: Padding(a, mode, y) == Padding(b, mode, y))
    && a[mode.pitch * mode.height..] == b[mode.pitch * mode.height..]
  }

  lemma SamePaddingTrans(a: bytes, b: bytes, c: bytes, mode: Mode)
    requires SamePadding(a, b, mode) && SamePadding(b, c, mode)
    ensures SamePadding(a, c, mode)
  {
  }

  // ---------------------------------------------------------------------
  // Writing inside one line
  // ---------------------------------------------------------------------

  /** Overwriting pixel bytes [from, from + |data|) of line y. */
  function WriteLine(buf: bytes, mode: Mode, y: nat, from: nat, data: bytes): (r: bytes)
    requires Holds(buf, mode) && y < mode.height && from + |data| <= PIXEL_BYTES * mode.width
    ensures |r| == |buf|
  {
    RowsApart(mode, y, y);
    Overlay(buf, Row(mode, y) + from, data)
  }

  lemma WriteLineSlice(buf: bytes, mode: Mode, y: nat, from: nat, data: bytes, lo: nat, hi: nat)
    requires Holds(buf, mode) && y < mode.height && from + |data| <= PIXEL_BYTES * mode.width
    requires lo <= hi <= |buf|
    requires hi <= Row(mode, y) + from || Row(mode, y) + from + |data| <= lo
    ensures WriteLine(buf, mode, y, from, data)[lo..hi] == buf[lo..hi]
  {
    RowsApart(mode, y, y);
    OverlaySlices(buf, Row(mode, y) + from, data, lo, hi);
  }

  lemma WriteLineOtherPixel(buf: bytes, mode: Mode, y: nat, from: nat, data: bytes, u: nat, v: nat)
    requires Holds(buf, mode) && y < mode.height && from + |data| <= PIXEL_BYTES * mode.width
    requires OnScreen(mode, u, v)
    requires v != y || PIXEL_BYTES * u + PIXEL_BYTES <= from || from + |data| <= PIXEL_BYTES * u
    ensures Pixel(WriteLine(buf, mode, y, from, data), mode, u, v) == Pixel(buf, mode, u, v)
  {
    hide Row, WriteLine;
    RowsApart(mode, y, v);
    RowsApart(mode, v, y);
    var lo := Row(mode, v) + PIXEL_BYTES * u;
    WriteLineSlice(buf, mode, y, from, data, lo, lo + PIXEL_BYTES);
  }

  lemma WriteLinePadding(buf: bytes, mode: Mode, y: nat, from: nat, data: bytes)
    requires Holds(buf, mode) && y < mode.height && from + |data| <= PIXEL_BYTES * mode.width
    ensures SamePadding(buf, WriteLine(buf, mode, y, from, data), mode)
  {
    hide Row, WriteLine;
    forall v | 0 <= v < mode.height
      ensures Padding(WriteLine(buf, mode, y, from, data), mode, v) == Padding(buf, mode, v)
    {
      RowsApart(mode, y, v);
      RowsApart(mode, v, y);
      WriteLineSlice(buf, mode, y, from, data, Row(mode, v) + PIXEL_BYTES * mode.width, Row(mode, v) + mode.pitch);
    }
    RowsApart(mode, y, y);
    WriteLineSlice(buf, mode, y, from, data, mode.pitch * mode.height, |buf|);
    var r := WriteLine(buf, mode, y, from, data);
    assert buf[mode.pitch * mode.height..] == buf[mode.pitch * mode.height..|buf|];
    assert r[mode.pitch * mode.height..] == r[mode.pitch * mode.height..|r|];
  }

  lemma WriteLineData(buf: bytes, mode: Mode, y: nat, from: nat, data: bytes)
    requires Holds(buf, mode) && y < mode.height && from + |data| <= PIXEL_BYTES * mode.width
    ensures Row(mode, y) + from + |data| <= |buf|
    ensures WriteLine(buf, mode, y, from, data)[Row(mode, y) + from..Row(mode, y) + from + |data|] == data
  {
    RowsApart(mode, y, y);
    OverlaySlices(buf, Row(mode, y) + from, data, 0, 0);
  }
}

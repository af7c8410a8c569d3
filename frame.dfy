/** The frame the step API streams to an external client: every pixel of the
    256 x 256 screen, row by row, as three 32-bit ints (red, green, blue),
    each written low byte first into a fixed-size byte buffer. */
module Frame {

  /** A byte as it goes on the wire. Java's `byte` is signed (-128..127);
      here each byte is held as its unsigned value, with the same bit
      pattern. */
  newtype byte = b: int | 0 <= b < 256

  const Width: nat := 256
  const Height: nat := 256
  /** Bytes per int: Integer.SIZE / Byte.SIZE. */
  const IntSize: nat := 4
  /** Bytes per pixel: three ints, 3 * IntSize. */
  const PixelSize: nat := 12
  /** Bytes per row of pixels: Width * PixelSize. */
  const RowSize: nat := 3072
  /** The buffer capacity initGame allocates: IntSize * Height * Width * 3.
      The products are written out as literals so the solver sees linear
      arithmetic only. */
  const FrameSize: nat := 786432

  const TwoTo32: int := 0x1_0000_0000
  const TwoTo31: int := 0x8000_0000

  function Pow256(n: nat): (r: nat)
    ensures r >= 1
  {
    if n == 0 then 1 else 256 * Pow256(n - 1)
  }

  /** The `n` bytes of `u`, least significant first. */
  function LittleEndian(u: nat, n: nat): (bs: seq<byte>)
    ensures |bs| == n
  {
    if n == 0 then [] else [(u % 256) as byte] + LittleEndian(u / 256, n - 1)
  }

  /** The number whose bytes, least significant first, are `bs`. */
  function FromLittleEndian(bs: seq<byte>): nat
  {
    if bs == [] then 0 else bs[0] as int + 256 * FromLittleEndian(bs[1..])
  }

  lemma {:induction false} LittleEndianRoundTrip(u: nat, n: nat)
    requires u < Pow256(n)
    ensures FromLittleEndian(LittleEndian(u, n)) == u
  {
    if n > 0 {
      var q := u / 256;
      assert u == 256 * q + u % 256;
      assert q < Pow256(n - 1) by {
        assert 256 * q <= u < 256 * Pow256(n - 1);
      }
      LittleEndianRoundTrip(q, n - 1);
      assert LittleEndian(u, n)[1..] == LittleEndian(q, n - 1);
    }
  }

  /** The four bytes putInt writes for `v` in little-endian order: the
      two's-complement 32-bit pattern of `v`, low byte first. */
  function IntLE(v: int): (bs: seq<byte>)
    ensures |bs| == IntSize
  {
    LittleEndian(v % TwoTo32, IntSize)
  }

  /** Reading an int back as getInt would in little-endian order. */
  function IntFromLE(bs: seq<byte>): int
    requires |bs| == IntSize
  {
    var u := FromLittleEndian(bs);
    if u >= TwoTo31 then u - TwoTo32 else u
  }

  /** Every 32-bit int survives the trip through its four bytes. */
  lemma IntRoundTrip(v: int)
    requires -TwoTo31 <= v < TwoTo31
    ensures IntFromLE(IntLE(v)) == v
  {
    assert Pow256(IntSize) == TwoTo32;
    LittleEndianRoundTrip(v % TwoTo32, IntSize);
  }

  /** The sizes agree with the way they are built up. */
  lemma SizesAgree()
    ensures PixelSize == 3 * IntSize && RowSize == Width * PixelSize
    ensures FrameSize == IntSize * Height * Width * 3 == Height * RowSize
  {
  }

  /** A colour channel (0..255) is written as its own value in the low byte
      followed by three zero bytes. */
  lemma ChannelBytes(c: int)
    requires 0 <= c < 256
    ensures IntLE(c) == [c as byte, 0, 0, 0]
  {
    assert LittleEndian(0, 1) == [0];
    assert LittleEndian(0, 2) == [0, 0];
    assert LittleEndian(0, 3) == [0, 0, 0];
  }

  datatype Rgb = Rgb(red: int, green: int, blue: int)

  /** The colour of a packed pixel as getRGB returns it (java.awt.Color): red
      in bits 16-23, green in bits 8-15, blue in bits 0-7. */
  function ColorOf(pixel: int): (c: Rgb)
    ensures 0 <= c.red < 256 && 0 <= c.green < 256 && 0 <= c.blue < 256
  {
    var u := pixel % TwoTo32;
    Rgb((u / 0x1_0000) % 256, (u / 0x100) % 256, u % 256)
  }

  /** The packed pixel getRGB returns for a colour with the given alpha: the
      32-bit pattern alpha:red:green:blue read as a Java int, so an opaque
      pixel (alpha 0xFF) is negative. */
  function PackArgb(alpha: int, c: Rgb): (p: int)
    requires 0 <= alpha < 256
    requires 0 <= c.red < 256 && 0 <= c.green < 256 && 0 <= c.blue < 256
    ensures -TwoTo31 <= p < TwoTo31
    ensures p < 0 <==> alpha >= 0x80
  {
    var u := alpha * 0x100_0000 + c.red * 0x1_0000 + c.green * 0x100 + c.blue;
    if u >= TwoTo31 then u - TwoTo32 else u
  }

  /** The colour of a packed pixel is the red, green and blue it was packed
      from, whatever its alpha. */
  lemma ColorOfPackArgb(alpha: int, c: Rgb)
    requires 0 <= alpha < 256
    requires 0 <= c.red < 256 && 0 <= c.green < 256 && 0 <= c.blue < 256
    ensures ColorOf(PackArgb(alpha, c)) == c
  {
    var u := alpha * 0x100_0000 + c.red * 0x1_0000 + c.green * 0x100 + c.blue;
    assert PackArgb(alpha, c) % TwoTo32 == u;
    assert u / 0x100 == alpha * 0x1_0000 + c.red * 0x100 + c.green;
    assert u / 0x1_0000 == alpha * 0x100 + c.red;
  }

  function Channel(c: Rgb, k: nat): int
    requires k < 3
  {
    if k == 0 then c.red else if k == 1 then c.green else c.blue
  }

  /** The twelve bytes of one pixel: red, green, blue as ints. */
  function EncodePixel(c: Rgb): (bs: seq<byte>)
    ensures |bs| == PixelSize
  {
    IntLE(c.red) + IntLE(c.green) + IntLE(c.blue)
  }

  /** The bytes of pixels 0 .. n-1 of row `y` of `image`. */
  function RowBytes(image: (int, int) -> int, y: int, n: nat): (bs: seq<byte>)
    ensures |bs| == 12 * n
  {
    if n == 0 then [] else RowBytes(image, y, n - 1) + EncodePixel(ColorOf(image(n - 1, y)))
  }

  /** The bytes of rows 0 .. m-1 of `image`. */
  function FrameBytes(image: (int, int) -> int, m: nat): (bs: seq<byte>)
    ensures |bs| == 3072 * m
  {
    if m == 0 then [] else FrameBytes(image, m - 1) + RowBytes(image, m - 1, Width)
  }

  /** Where channel `c` of pixel (x, y) starts in the frame:
      4 * (3 * (y * 256 + x) + c). */
  function Offset(x: nat, y: nat, c: nat): (o: nat)
    ensures o == 4 * (3 * (y * 256 + x) + c)
  {
    3072 * y + 12 * x + 4 * c
  }

  lemma SliceOfSlice(s: seq<byte>, a: nat, len: nat, b: nat, n: nat)
    requires a + len <= |s| && b + n <= len
    ensures s[a .. a + len][b .. b + n] == s[a + b .. a + b + n]
  {
    var lhs, rhs := s[a .. a + len][b .. b + n], s[a + b .. a + b + n];
    assert |lhs| == |rhs| == n;
    forall i | 0 <= i < n
      ensures lhs[i] == rhs[i]
    {
      assert lhs[i] == s[a .. a + len][b + i] == s[a + b + i];
    }
  }

  /** A slice of a slice of a slice, located in the outermost sequence. */
  lemma NestedSlices(frame: seq<byte>, row: seq<byte>, pixel: seq<byte>, bytes: seq<byte>, r: nat, p: nat, k: nat)
    requires r + 3072 <= |frame| && p + 12 <= 3072 && k + 4 <= 12
    requires frame[r .. r + 3072] == row && row[p .. p + 12] == pixel && pixel[k .. k + 4] == bytes
    ensures frame[r + p + k .. r + p + k + 4] == bytes
  {
    SliceOfSlice(row, p, 12, k, 4);
    SliceOfSlice(frame, r, 3072, p + k, 4);
  }

  lemma AppendAssoc(a: seq<byte>, b: seq<byte>, c: seq<byte>)
    ensures (a + b) + c == a + (b + c)
  {
  }

  /** A slice that lies within the front part of a concatenation. */
  lemma SliceOfFront(front: seq<byte>, back: seq<byte>, i: nat, j: nat)
    requires i <= j <= |front|
    ensures (front + back)[i .. j] == front[i .. j]
  {
    var lhs, rhs := (front + back)[i .. j], front[i .. j];
    assert |lhs| == |rhs|;
    forall k | 0 <= k < j - i
      ensures lhs[k] == rhs[k]
    {
      assert lhs[k] == (front + back)[i + k];
    }
  }

  /** The back part of a concatenation, sliced out by position. */
  lemma SliceOfBack(front: seq<byte>, back: seq<byte>)
    ensures (front + back)[|front| .. |front| + |back|] == back
  {
    var lhs := (front + back)[|front| .. |front| + |back|];
    assert |lhs| == |back|;
    forall k | 0 <= k < |back|
      ensures lhs[k] == back[k]
    {
      assert lhs[k] == (front + back)[|front| + k];
    }
  }

  lemma EncodePixelAt(c: Rgb, k: nat)
    requires k < 3
    ensures EncodePixel(c)[IntSize * k .. IntSize * k + IntSize] == IntLE(Channel(c, k))
  {
  }

  lemma {:induction false} RowBytesAt(image: (int, int) -> int, y: int, n: nat, x: nat)
    requires x < n
    ensures RowBytes(image, y, n)[12 * x .. 12 * x + 12] == EncodePixel(ColorOf(image(x, y)))
  {
    var front := RowBytes(image, y, n - 1);
    var pixel := EncodePixel(ColorOf(image(n - 1, y)));
    assert RowBytes(image, y, n) == front + pixel;
    if x < n - 1 {
      RowBytesAt(image, y, n - 1, x);
      SliceOfFront(front, pixel, 12 * x, 12 * x + 12);
    } else {
      assert |front| == 12 * x;
      SliceOfBack(front, pixel);
    }
  }

  lemma {:induction false} FrameBytesAt(image: (int, int) -> int, m: nat, y: nat)
    requires y < m
    ensures FrameBytes(image, m)[3072 * y .. 3072 * y + 3072] == RowBytes(image, y, Width)
  {
    var front := FrameBytes(image, m - 1);
    var row := RowBytes(image, m - 1, Width);
    assert FrameBytes(image, m) == front + row;
    if y < m - 1 {
      FrameBytesAt(image, m - 1, y);
      SliceOfFront(front, row, 3072 * y, 3072 * y + 3072);
    } else {
      assert |front| == 3072 * y;
      SliceOfBack(front, row);
    }
  }

  /** The layout of the first `m` rows of a frame: channel `c` of pixel
      (x, y) is the little-endian int at 4 * (3 * (y * 256 + x) + c). */
  lemma FrameLayout(image: (int, int) -> int, m: nat, x: nat, y: nat, c: nat)
    requires x < Width && y < m && c < 3
    ensures Offset(x, y, c) + 4 <= |FrameBytes(image, m)|
    ensures FrameBytes(image, m)[Offset(x, y, c) .. Offset(x, y, c) + 4] == IntLE(Channel(ColorOf(image(x, y)), c))
  {
    var color := ColorOf(image(x, y));
    FrameBytesAt(image, m, y);
    RowBytesAt(image, y, Width, x);
    EncodePixelAt(color, c);
    NestedSlices(FrameBytes(image, m), RowBytes(image, y, Width), EncodePixel(color),
                 IntLE(Channel(color, c)), 3072 * y, 12 * x, 4 * c);
  }

  /** What a client reading the frame sees at pixel (x, y). */
  function DecodePixel(frame: seq<byte>, x: nat, y: nat): Rgb
    requires |frame| == FrameSize && x < Width && y < Height
  {
    Rgb(IntFromLE(frame[Offset(x, y, 0) .. Offset(x, y, 0) + IntSize]),
        IntFromLE(frame[Offset(x, y, 1) .. Offset(x, y, 1) + IntSize]),
        IntFromLE(frame[Offset(x, y, 2) .. Offset(x, y, 2) + IntSize]))
  }

  /** Decoding a frame gives back the colour of every pixel of the image. */
  lemma FrameRoundTrip(image: (int, int) -> int, x: nat, y: nat)
    requires x < Width && y < Height
    ensures |FrameBytes(image, Height)| == FrameSize
    ensures DecodePixel(FrameBytes(image, Height), x, y) == ColorOf(image(x, y))
  {
    var c := ColorOf(image(x, y));
    FrameLayout(image, Height, x, y, 0);
    FrameLayout(image, Height, x, y, 1);
    FrameLayout(image, Height, x, y, 2);
    IntRoundTrip(c.red);
    IntRoundTrip(c.green);
    IntRoundTrip(c.blue);
  }

  /** One pixel: its red, green and blue ints appended at the position. */
  method PutPixel(buf: ByteBuffer, color: Rgb)
    requires buf.Valid() && buf.position + PixelSize <= buf.limit
    modifies buf`position, buf.data
    ensures buf.Valid() && buf.limit == old(buf.limit)
    ensures buf.position == old(buf.position) + PixelSize
    ensures buf.data[..buf.position] == old(buf.data[..buf.position]) + EncodePixel(color)
    ensures forall i :: buf.position <= i < buf.data.Length ==> buf.data[i] == old(buf.data[i])
  {
    ghost var written := buf.data[..buf.position];
    buf.PutInt(color.red);
    buf.PutInt(color.green);
    buf.PutInt(color.blue);
    assert buf.data[..buf.position] == written + IntLE(color.red) + IntLE(color.green) + IntLE(color.blue);
  }

  /** The inner loop of computeObservationRGB: the pixels of row `y`, left
      to right, appended at the buffer's position. */
  method PutRow(buf: ByteBuffer, image: (int, int) -> int, y: int)
    requires buf.Valid() && buf.position + RowSize <= buf.limit
    modifies buf`position, buf.data
    ensures buf.Valid() && buf.limit == old(buf.limit)
    ensures buf.position == old(buf.position) + RowSize
    ensures buf.data[..buf.position] == old(buf.data[..buf.position]) + RowBytes(image, y, Width)
    ensures forall i :: buf.position <= i < buf.data.Length ==> buf.data[i] == old(buf.data[i])
  {
    ghost var written := buf.data[..buf.position];
    var x := 0;
    while x < Width
      invariant 0 <= x <= Width
      invariant buf.Valid() && buf.limit == old(buf.limit)
      invariant buf.position == old(buf.position) + 12 * x
      invariant buf.data[..buf.position] == written + RowBytes(image, y, x)
      invariant forall i :: buf.position <= i < buf.data.Length ==> buf.data[i] == old(buf.data[i])
    {
      ghost var row := RowBytes(image, y, x);
      var color := ColorOf(image(x, y));
      PutPixel(buf, color);
      AppendAssoc(written, row, EncodePixel(color));
      x := x + 1;
    }
  }

  /** The loops of computeObservationRGB: every row of `image`, top to
      bottom, written from the start of a cleared buffer. */
  method PutFrame(buf: ByteBuffer, image: (int, int) -> int)
    requires buf.Valid() && buf.position == 0 && buf.limit == buf.data.Length == FrameSize
    modifies buf`position, buf.data
    ensures buf.Valid() && buf.limit == FrameSize
    ensures buf.position == FrameSize
    ensures buf.data[..] == FrameBytes(image, Height)
  {
    var y := 0;
    while y < Height
      invariant 0 <= y <= Height
      invariant buf.Valid() && buf.limit == buf.data.Length == FrameSize
      invariant buf.position == 3072 * y
      invariant buf.data[..buf.position] == FrameBytes(image, y)
    {
      ghost var done := FrameBytes(image, y);
      PutRow(buf, image, y);
      assert FrameBytes(image, y + 1) == done + RowBytes(image, y, Width);
      y := y + 1;
    }
    assert buf.data[..] == buf.data[..buf.position];
  }

  /** A java.nio byte buffer in little-endian order: a fixed backing array,
      the position where the next put writes, and the limit. */
  class ByteBuffer {
    const data: array<byte>
    var position: nat
    var limit: nat

    ghost predicate Valid()
      reads this
    {
      position <= limit <= data.Length
    }

    /** ByteBuffer.allocateDirect: zero-filled, position 0, limit = capacity. */
    constructor AllocateDirect(capacity: nat)
      ensures Valid() && fresh(data)
      ensures data.Length == capacity && position == 0 && limit == capacity
      ensures forall i :: 0 <= i < capacity ==> data[i] == 0
    {
      data := new byte[capacity](_ => 0);
      position := 0;
      limit := capacity;
    }

    /** ByteBuffer.clear: ready to write from the start; contents untouched. */
    method Clear()
      modifies this
      ensures Valid() && position == 0 && limit == data.Length
    {
      position := 0;
      limit := data.Length;
    }

    /** ByteBuffer.putInt: the four bytes of `v` at the position, which
        advances by four; nothing else changes. */
    method PutInt(v: int)
      requires Valid() && position + IntSize <= limit
      modifies this`position, data
      ensures Valid() && limit == old(limit) && position == old(position) + IntSize
      ensures data[..position] == old(data[..position]) + IntLE(v)
      ensures forall i :: position <= i < data.Length ==> data[i] == old(data[i])
    {
      var bytes := IntLE(v);
      data[position] := bytes[0];
      data[position + 1] := bytes[1];
      data[position + 2] := bytes[2];
      data[position + 3] := bytes[3];
      position := position + IntSize;
    }

    /** ByteBuffer.flip: what was written becomes what can be read. */
    method Flip()
      requires Valid()
      modifies this
      ensures Valid() && limit == old(position) && position == 0
    {
      limit := position;
      position := 0;
    }
  }
}

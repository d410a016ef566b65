/** The run-length branch of the TGA decoder (encoding 10): packets of true-colour pixels. */
module Tga {
  import opened Options
  import opened Bytes

  /** The bytes of n pixels of 24 or 32 bits. */
  function Span(alpha: bool, n: nat): (k: nat) {
    if alpha then 4 * n else 3 * n
  }

  /** The pixel at an offset: blue, green, red and, in 32 bits, alpha. */
  function PixelAt(data: seq<Byte>, at: nat, alpha: bool): (p: Word32)
    requires at + Span(alpha, 1) <= |data|
  {
    FromLe32([data[at], data[at + 1], data[at + 2], if alpha then data[at + 3] else 0xFF])
  }

  /** The pixels of n literal entries. */
  function Literal(data: seq<Byte>, at: nat, n: nat, alpha: bool): (ps: seq<Word32>)
    requires at + Span(alpha, n) <= |data|
    ensures |ps| == n
    decreases n
  {
    if n == 0 then [] else [PixelAt(data, at, alpha)] + Literal(data, at + Span(alpha, 1), n - 1, alpha)
  }

  function Repeat(p: Word32, n: nat): (ps: seq<Word32>)
    ensures |ps| == n
    decreases n
  {
    if n == 0 then [] else [p] + Repeat(p, n - 1)
  }

  /** How many pixels a packet holds, from its first byte. */
  function Length(k: Byte): (n: nat)
    ensures 0 < n <= 128
  {
    if k > 127 then k - 127 else k + 1
  }

  /** The packet at an offset: its pixels and the offset after it. */
  function Packet(data: seq<Byte>, at: nat, alpha: bool): (r: Option<(seq<Word32>, nat)>)
    ensures r.Some? ==> at < |data| && |r.value.0| == Length(data[at])
  {
    if at >= |data| then None else
    var n := Length(data[at]);
    if data[at] > 127 then
      if at + 1 + Span(alpha, 1) > |data| then None
        else Some((Repeat(PixelAt(data, at + 1, alpha), n), at + 1 + Span(alpha, 1)))
    else
      if at + 1 + Span(alpha, n) > |data| then None
        else Some((Literal(data, at + 1, n, alpha), at + 1 + Span(alpha, n)))
  }

  /** The pixels of a packet stream, of which none is cut off, and which yields n of them at most. */
  function Expand(data: seq<Byte>, at: nat, n: nat, alpha: bool): (r: Option<seq<Word32>>)
    ensures r.Some? ==> |r.value| <= n
    decreases n
  {
    if n == 0 || at >= |data| then Some([]) else
    match Packet(data, at, alpha)
    case None => None
    case Some((ps, next)) =>
      if |ps| > n then None else
      match Expand(data, next, n - |ps|, alpha)
      case None => None
      case Some(more) => Some(ps + more)
  }

  lemma ExpandStep(data: seq<Byte>, at: nat, n: nat, alpha: bool)
    requires n > 0 && at < |data| && Expand(data, at, n, alpha).Some?
    ensures Packet(data, at, alpha).Some? && |Packet(data, at, alpha).value.0| <= n
    ensures var (ps, next) := Packet(data, at, alpha).value;
            && Expand(data, next, n - |ps|, alpha).Some?
            && Expand(data, at, n, alpha).value == ps + Expand(data, next, n - |ps|, alpha).value
  {
  }

  // ---- Which bytes a pixel is made of ----

  /** Where in the file pixel j of a packet stream comes from. */
  function Source(data: seq<Byte>, at: nat, alpha: bool, j: nat): (o: nat)
    decreases j
  {
    if at >= |data| then 0 else
    var k, size := data[at], if alpha then 4 else 3;
    if k >= 128 then
      if j < k - 127 then at + 1 else Source(data, at + 1 + size, alpha, j - (k - 127))
    else
      if j < k + 1 then at + 1 + size * j else Source(data, at + 1 + size * (k + 1), alpha, j - (k + 1))
  }

  /** The bytes of a pixel: blue, green, red and alpha, which is full where the file has none. */
  predicate Channels(p: Word32, data: seq<Byte>, o: nat, alpha: bool) {
    && o + (if alpha then 4 else 3) <= |data|
    && Le32(p) == [data[o], data[o + 1], data[o + 2], if alpha then data[o + 3] else 0xFF]
  }

  lemma PixelMeans(data: seq<Byte>, o: nat, alpha: bool)
    requires o + Span(alpha, 1) <= |data|
    ensures Channels(PixelAt(data, o, alpha), data, o, alpha)
  {
    Le32There([data[o], data[o + 1], data[o + 2], if alpha then data[o + 3] else 0xFF]);
  }

  lemma {:induction false} LiteralMeans(data: seq<Byte>, at: nat, n: nat, alpha: bool, j: nat)
    requires at + Span(alpha, n) <= |data| && j < n
    ensures Channels(Literal(data, at, n, alpha)[j], data, at + (if alpha then 4 else 3) * j, alpha)
    decreases n
  {
    hide Channels;
    hide PixelAt;
    if j == 0 {
      PixelMeans(data, at, alpha);
    } else {
      LiteralMeans(data, at + Span(alpha, 1), n - 1, alpha, j - 1);
    }
  }

  lemma {:induction false} RepeatMeans(p: Word32, n: nat, j: nat)
    requires j < n
    ensures Repeat(p, n)[j] == p
  {
    if j > 0 {
      RepeatMeans(p, n - 1, j - 1);
    }
  }

  /** Every pixel of a packet is made of the bytes it comes from. */
  lemma PacketMeans(data: seq<Byte>, at: nat, alpha: bool, j: nat)
    requires Packet(data, at, alpha).Some? && j < |Packet(data, at, alpha).value.0|
    ensures Channels(Packet(data, at, alpha).value.0[j], data, Source(data, at, alpha, j), alpha)
  {
    hide Channels;
    hide PixelAt;
    hide Repeat;
    hide Literal;
    if data[at] > 127 {
      RepeatMeans(PixelAt(data, at + 1, alpha), Length(data[at]), j);
      PixelMeans(data, at + 1, alpha);
    } else {
      LiteralMeans(data, at + 1, Length(data[at]), alpha, j);
    }
  }

  lemma SourceNext(data: seq<Byte>, at: nat, alpha: bool, j: nat)
    requires Packet(data, at, alpha).Some? && j >= |Packet(data, at, alpha).value.0|
    ensures var (ps, next) := Packet(data, at, alpha).value;
            Source(data, at, alpha, j) == Source(data, next, alpha, j - |ps|)
  {
  }

  /** Every pixel of an expanded stream is made of the bytes it comes from. */
  lemma {:induction false} ExpandMeans(data: seq<Byte>, at: nat, n: nat, alpha: bool, j: nat)
    requires Expand(data, at, n, alpha).Some? && j < |Expand(data, at, n, alpha).value|
    ensures Channels(Expand(data, at, n, alpha).value[j], data, Source(data, at, alpha, j), alpha)
    decreases n
  {
    hide Channels;
    hide Source;
    hide Packet;
    assert n > 0 && at < |data|;
    ExpandStep(data, at, n, alpha);
    hide Expand;
    var (ps, next) := Packet(data, at, alpha).value;
    if j < |ps| {
      PacketMeans(data, at, alpha, j);
    } else {
      SourceNext(data, at, alpha, j);
      ExpandMeans(data, next, n - |ps|, alpha, j - |ps|);
    }
  }

  lemma ExpandEnds(data: seq<Byte>, at: nat, n: nat, alpha: bool)
    requires n == 0 || at >= |data|
    ensures Expand(data, at, n, alpha) == Some([])
  {
  }

  // ---- Packets that pass the end of the image ----

  /** The offset after a packet. */
  function NextPacket(data: seq<Byte>, at: nat, alpha: bool): (next: nat)
    requires at < |data|
  {
    at + 1 + Span(alpha, if data[at] > 127 then 1 else Length(data[at]))
  }

  /** How many pixels the packet loop writes, for an image of n, when it has written x. */
  function Writes(data: seq<Byte>, at: nat, n: nat, alpha: bool, x: nat): (m: nat)
    decreases n - x
  {
    if x < n && at < |data| then Writes(data, NextPacket(data, at, alpha), n, alpha, x + Length(data[at])) else x
  }

  /** No packet goes on after the last of n pixels. */
  predicate NonePasses(data: seq<Byte>, at: nat, n: nat, alpha: bool)
    decreases n
  {
    n > 0 && at < |data| ==>
      Length(data[at]) <= n && NonePasses(data, NextPacket(data, at, alpha), n - Length(data[at]), alpha)
  }

  lemma {:induction false} WritesFit(data: seq<Byte>, at: nat, n: nat, alpha: bool, x: nat)
    requires x <= n
    ensures Writes(data, at, n, alpha, x) <= n <==> NonePasses(data, at, n - x, alpha)
    decreases n - x
  {
    if x < n && at < |data| && Length(data[at]) <= n - x {
      WritesFit(data, NextPacket(data, at, alpha), n, alpha, x + Length(data[at]));
    }
  }

  /** A stream that is expanded writes its pixels, and no packet of it passes the end. */
  lemma {:induction false} ExpandWrites(data: seq<Byte>, at: nat, n: nat, alpha: bool, x: nat)
    requires x <= n && Expand(data, at, n - x, alpha).Some?
    ensures Writes(data, at, n, alpha, x) == x + |Expand(data, at, n - x, alpha).value|
    ensures NonePasses(data, at, n - x, alpha)
    decreases n - x
  {
    if x < n && at < |data| {
      ExpandStep(data, at, n - x, alpha);
      assert Packet(data, at, alpha).value.1 == NextPacket(data, at, alpha);
      hide Packet;
      hide NextPacket;
      hide Length;
      hide Expand;
      ExpandWrites(data, NextPacket(data, at, alpha), n, alpha, x + Length(data[at]));
    }
  }

  /** No packet of the first n pixels is cut off by the end of the file. */
  predicate NoneCut(data: seq<Byte>, at: nat, n: nat, alpha: bool)
    decreases n
  {
    n > 0 && at < |data| ==>
      && NextPacket(data, at, alpha) <= |data|
      && (Length(data[at]) <= n ==> NoneCut(data, NextPacket(data, at, alpha), n - Length(data[at]), alpha))
  }

  /** The streams that are expanded. */
  lemma {:induction false} ExpandIff(data: seq<Byte>, at: nat, n: nat, alpha: bool)
    ensures Expand(data, at, n, alpha).Some? <==> NonePasses(data, at, n, alpha) && NoneCut(data, at, n, alpha)
    decreases n
  {
    if n > 0 && at < |data| {
      var next, k := NextPacket(data, at, alpha), Length(data[at]);
      assert Packet(data, at, alpha).Some? <==> next <= |data|;
      assert Packet(data, at, alpha).Some? ==> Packet(data, at, alpha).value.1 == next;
      hide Packet;
      hide NextPacket;
      hide Length;
      if k <= n {
        ExpandIff(data, next, n - k, alpha);
      }
    }
  }

  const WRAP: nat := 0x1_0000_0000

  /** The 32-bit variables i and y of the packet loop. */
  datatype Cursor = Cursor(i: nat, y: nat)

  /** The cell that the next write goes to: at a multiple of the width, the start of the next row of the file. */
  function CellOf(w: Word16, h: Word16, origin: bool, c: Cursor): (cell: nat)
    requires w > 0
  {
    if c.i % w == 0 then (if origin then c.y else h - c.y - 1) * w % WRAP else c.i
  }

  function Moved(w: Word16, h: Word16, origin: bool, c: Cursor): (c': Cursor)
    requires w > 0
  {
    Cursor((CellOf(w, h, origin, c) + 1) % WRAP, if c.i % w == 0 then c.y + 1 else c.y)
  }

  function CursorAt(w: Word16, h: Word16, origin: bool, k: nat): (c: Cursor)
    requires w > 0
  {
    if k == 0 then Cursor(0, 0) else Moved(w, h, origin, CursorAt(w, h, origin, k - 1))
  }

  /** The cell that write k goes to. */
  function Cell(w: Word16, h: Word16, origin: bool, k: nat): (cell: nat)
    requires w > 0
  {
    CellOf(w, h, origin, CursorAt(w, h, origin, k))
  }

  lemma Assoc(a: seq<Word32>, b: seq<Word32>, c: seq<Word32>)
    ensures a + (b + c) == (a + b) + c
  {
  }

  // ---- Arithmetic of rows ----

  lemma {:induction false} AtLeast(d: nat, w: nat)
    requires d >= 1
    ensures d * w >= w
  {
  }

  lemma NoFactor(d: int, w: nat)
    requires 0 - w < d * w < w
    ensures d == 0
  {
  }

  /** A cell has one row and one column. */
  lemma OneCell(w: nat, r: nat, c: nat, r': nat, c': nat)
    requires c < w && c' < w && r * w + c == r' * w + c'
    ensures r == r' && c == c'
  {
    assert (r - r') * w == r * w - r' * w;
    NoFactor(r - r', w);
  }

  lemma CellMod(w: nat, r: nat, c: nat)
    requires 0 < w && c <= w
    ensures (r * w + c) % w == 0 <==> c == 0 || c == w
  {
    var n := r * w + c;
    assert n == n / w * w + n % w;
    if c < w {
      OneCell(w, n / w, n % w, r, c);
    } else {
      assert (r + 1) * w == r * w + w;
      OneCell(w, n / w, n % w, r + 1, 0);
    }
  }

  lemma CellIn(w: nat, h: nat, r: nat, c: nat)
    requires r < h && c < w
    ensures r * w + c < w * h
  {
    AtLeast(h - r, w);
    assert (h - r) * w == h * w - r * w;
  }

  // ---- The decoder ----

  /** The row of the image that row y of the file is: reversed when y_origin is zero. */
  function Row(h: nat, origin: bool, y: nat): (r: nat)
    requires y < h
    ensures r < h
  {
    if origin then y else h - y - 1
  }

  lemma Small(w: Word16, h: Word16)
    ensures w * h + w < WRAP
  {
    LessTimes(w, 0xFFFF, h + 1);
    assert w * (h + 1) == w * h + w;
  }

  lemma {:induction false} LessTimes(a: nat, b: nat, n: nat)
    requires a <= b
    ensures a * n <= b * n
  {
    assert b * n == a * n + (b - a) * n;
  }

  lemma StepInRow(w: Word16, h: Word16, origin: bool, k: nat, c: Cursor)
    requires 0 < w && CursorAt(w, h, origin, k) == c && c.i % w != 0 && c.i + 1 < WRAP
    ensures Cell(w, h, origin, k) == c.i && CursorAt(w, h, origin, k + 1) == Cursor(c.i + 1, c.y)
  {
    assert CursorAt(w, h, origin, k + 1) == Moved(w, h, origin, c);
    hide CursorAt;
    Wrapped(c.i + 1);
  }

  lemma StepToRow(w: Word16, h: Word16, origin: bool, k: nat, c: Cursor, start: nat)
    requires 0 < w && CursorAt(w, h, origin, k) == c && c.i % w == 0
    requires c.y < h && start == Row(h, origin, c.y) * w && start + 1 < WRAP
    ensures Cell(w, h, origin, k) == start && CursorAt(w, h, origin, k + 1) == Cursor(start + 1, c.y + 1)
  {
    assert CursorAt(w, h, origin, k + 1) == Moved(w, h, origin, c);
    hide CursorAt;
    Wrapped(start);
    Wrapped(start + 1);
    assert (if origin then c.y else h - c.y - 1) * w == start;
  }

  lemma StepPast(w: Word16, h: Word16, origin: bool, k: nat, c: Cursor)
    requires 0 < w && CursorAt(w, h, origin, k) == c && c.i % w == 0 && c.y == h
    ensures Cell(w, h, origin, k) >= w * h
  {
    hide CursorAt;
    Small(w, h);
    var y: int := if origin then h else -1;
    assert y == if origin then c.y else h - c.y - 1;
    assert y * w == if origin then w * h else 0 - w;
    Wrapped(y * w);
  }

  lemma Wrapped(n: int)
    requires 0 <= n + WRAP && n < WRAP
    ensures n % WRAP == if n < 0 then n + WRAP else n
  {
  }

  /** Write b * w + c goes to the cell of pixel c of row b. */
  lemma {:induction false} CursorIs(w: Word16, h: Word16, origin: bool, b: nat, c: nat, k: nat)
    requires 0 < w && b < h && c < w && k == b * w + c
    ensures Cell(w, h, origin, k) == Row(h, origin, b) * w + c < w * h
    ensures CursorAt(w, h, origin, k + 1) == Cursor(Row(h, origin, b) * w + c + 1, b + 1)
    decreases b, c
  {
    hide Cell;
    hide Row;
    hide CursorAt;
    var start := Row(h, origin, b) * w;
    assert start + c + 1 < WRAP && start + c < w * h by {
      Small(w, h);
      CellIn(w, h, Row(h, origin, b), c);
    }
    if c > 0 {
      CursorIs(w, h, origin, b, c - 1, k - 1);
      CellMod(w, Row(h, origin, b), c);
      StepInRow(w, h, origin, k, Cursor(start + c, b + 1));
    } else if b > 0 {
      assert (b - 1) * w == b * w - w;
      CursorIs(w, h, origin, b - 1, w - 1, k - 1);
      CellMod(w, Row(h, origin, b - 1), w);
      StepToRow(w, h, origin, k, Cursor(Row(h, origin, b - 1) * w + w, b), start);
    } else {
      assert k == 0;
      NoWrites(w, h, origin);
      StepToRow(w, h, origin, 0, Cursor(0, 0), start);
    }
  }

  lemma NoWrites(w: Word16, h: Word16, origin: bool)
    requires 0 < w
    ensures CursorAt(w, h, origin, 0) == Cursor(0, 0)
  {
  }

  /** The first write after the last pixel is outside the image. */
  lemma PastTheEnd(w: Word16, h: Word16, origin: bool)
    requires 0 < w
    ensures Cell(w, h, origin, w * h) >= w * h
  {
    hide Cell;
    hide Row;
    if h == 0 {
      StepPast(w, h, origin, 0, Cursor(0, 0));
    } else {
      assert (h - 1) * w + (w - 1) + 1 == w * h;
      CursorIs(w, h, origin, h - 1, w - 1, w * h - 1);
      CellMod(w, Row(h, origin, h - 1), w);
      StepPast(w, h, origin, w * h, Cursor(Row(h, origin, h - 1) * w + w, h));
    }
  }

  /** The first n writes stay inside the image if and only if it has as many pixels. */
  lemma InsideIff(w: Word16, h: Word16, origin: bool, n: nat)
    requires 0 < w
    ensures (forall k: nat | k < n :: Cell(w, h, origin, k) < w * h) <==> n <= w * h
  {
    hide Cell;
    PastTheEnd(w, h, origin);
    if n <= w * h {
      forall k: nat | k < n ensures Cell(w, h, origin, k) < w * h {
        CellInside(w, h, origin, k);
      }
    }
  }

  lemma {:induction false} PixelPlace(w: nat, h: nat, k: nat) returns (b: nat, c: nat)
    requires k < w * h
    ensures b < h && c < w && k == b * w + c
    decreases h
  {
    assert h > 0 && w * h == w * (h - 1) + w;
    if k < w {
      return 0, k;
    }
    b, c := PixelPlace(w, h - 1, k - w);
    assert (b + 1) * w == b * w + w;
    b := b + 1;
  }

  lemma CellInside(w: Word16, h: Word16, origin: bool, k: nat)
    requires 0 < w && k < w * h
    ensures Cell(w, h, origin, k) < w * h
  {
    hide Cell;
    hide CursorAt;
    var b, c := PixelPlace(w, h, k);
    CursorIs(w, h, origin, b, c, k);
  }

  /**
  All writes of the packet loop stay inside the image if and only if no packet goes on after its last pixel: the loop
  tests the number of pixels only between packets.
  */
  lemma OverrunIff(data: seq<Byte>, start: nat, w: Word16, h: Word16, origin: bool, alpha: bool)
    requires 0 < w
    ensures (forall k: nat | k < Writes(data, start, w * h, alpha, 0) :: Cell(w, h, origin, k) < w * h)
            <==> NonePasses(data, start, w * h, alpha)
  {
    hide Cell;
    hide Writes;
    InsideIff(w, h, origin, Writes(data, start, w * h, alpha, 0));
    WritesFit(data, start, w * h, alpha, 0);
  }

  /** A run of two pixels for an image of one: the second is written outside. */
  lemma RunPasses(origin: bool)
    ensures var data := [129, 0, 0, 0]; !NonePasses(data, 0, 1, false) && Writes(data, 0, 1, false, 0) == 2
    ensures Cell(1, 1, origin, 1) >= 1
  {
    PastTheEnd(1, 1, origin);
  }

  /** Pixel c of row y of the file lies before column `column` of row `rows - 1`. */
  predicate Before(rows: nat, column: nat, y: nat, c: nat) {
    y + 1 < rows || (y + 1 == rows && c < column)
  }

  /** An image being filled: i, y and the cells written say that `done` pixels have come. */
  ghost predicate Filled(image: seq<Word32>, w: nat, h: nat, origin: bool, i: nat, y: nat, column: nat,
                         done: seq<Word32>) {
    && 0 < w && |image| == w * h && y <= h && |done| <= w * h
    && (if y == 0 then done == [] && i == 0 && column == 0
        else 0 < column <= w && |done| == (y - 1) * w + column && i == Row(h, origin, y - 1) * w + column)
    && forall b: nat, c: nat | c < w && Before(y, column, b, c) :: Right(image, w, h, origin, done, b, c)
  }

  /** Pixel c of row b of the file is where it belongs. */
  predicate Right(image: seq<Word32>, w: nat, h: nat, origin: bool, done: seq<Word32>, b: nat, c: nat) {
    && b < h && b * w + c < |done| && Row(h, origin, b) * w + c < |image|
    && image[Row(h, origin, b) * w + c] == done[b * w + c]
  }

  /** The cell of pixel c of row b of the file is made of the bytes the pixel comes from. */
  predicate FromFile(image: seq<Word32>, w: nat, h: nat, origin: bool, data: seq<Byte>, start: nat, alpha: bool, b: nat,
                     c: nat) {
    && b < h && (if origin then b else h - 1 - b) * w + c < |image|
    && Channels(image[(if origin then b else h - 1 - b) * w + c], data, Source(data, start, alpha, b * w + c), alpha)
  }

  lemma FileCell(image: seq<Word32>, w: nat, h: nat, origin: bool, done: seq<Word32>, data: seq<Byte>, start: nat,
                 alpha: bool, b: nat, c: nat)
    requires Right(image, w, h, origin, done, b, c) && Expand(data, start, w * h, alpha) == Some(done)
    ensures FromFile(image, w, h, origin, data, start, alpha, b, c)
  {
    hide Channels;
    hide Expand;
    ExpandMeans(data, start, w * h, alpha, b * w + c);
    assert Row(h, origin, b) == if origin then b else h - 1 - b;
  }

  /** Writing pixel c' of row b' leaves the others right. */
  lemma StillRight(image: seq<Word32>, w: nat, h: nat, origin: bool, done: seq<Word32>, b: nat, c: nat, b': nat,
                   c': nat, p: Word32)
    requires c < w && Right(image, w, h, origin, done, b, c) && b' < h && c' < w && (b, c) != (b', c')
    requires Row(h, origin, b') * w + c' < |image|
    ensures Right(image[Row(h, origin, b') * w + c' := p], w, h, origin, done + [p], b, c)
  {
    if Row(h, origin, b') * w + c' == Row(h, origin, b) * w + c {
      OneCell(w, Row(h, origin, b'), c', Row(h, origin, b), c);
    }
  }

  /** All pixels up to and with the one just written are right. */
  lemma AllRight(image: seq<Word32>, w: nat, h: nat, origin: bool, rows: nat, column: nat, done: seq<Word32>, b': nat,
                 c': nat, p: Word32, rows': nat, column': nat, cell: nat, image': seq<Word32>)
    requires rows' == b' + 1 && column' == c' + 1
             && forall b: nat, c: nat | c < w && Before(rows, column, b, c) :: Right(image, w, h, origin, done, b, c)
    requires b' < h && c' < w && |image| == w * h && |done| == b' * w + c'
    requires if column == w || rows == 0 then b' == rows && c' == 0 else b' + 1 == rows && c' == column
    requires cell == Row(h, origin, b') * w + c' && cell < |image| && image' == image[cell := p]
    ensures forall b: nat, c: nat | c < w && Before(rows', column', b, c) ::
              Right(image', w, h, origin, done + [p], b, c)
  {
    forall b: nat, c: nat | c < w && Before(rows', column', b, c)
      ensures Right(image', w, h, origin, done + [p], b, c)
    {
      if (b, c) != (b', c') {
        assert Before(rows, column, b, c);
        StillRight(image, w, h, origin, done, b, c, b', c', p);
      }
    }
  }

  lemma NextPlace(w: nat, h: nat, y: nat, column: nat, n: nat)
    requires 0 < w && n < w * h && (if y == 0 then n == 0 else column <= w && n == (y - 1) * w + column)
    ensures y == 0 || column == w ==> y < h && n == y * w
    ensures y > 0 && column < w ==> y - 1 < h
  {
  }

  /** The next pixel goes to the next cell of its row, or to the first of the next row. */
  lemma Place(image: seq<Word32>, w: nat, h: nat, origin: bool, i: nat, y: nat, column: nat, done: seq<Word32>,
              p: Word32)
    requires Filled(image, w, h, origin, i, y, column, done) && |done| < w * h
    ensures i % w == 0 ==> y < h && Row(h, origin, y) * w < w * h
                           && Filled(image[Row(h, origin, y) * w := p], w, h, origin, Row(h, origin, y) * w + 1, y + 1,
                                     1, done + [p])
    ensures i % w != 0 ==> i < w * h && Filled(image[i := p], w, h, origin, i + 1, y, column + 1, done + [p])
  {
    hide Right;
    hide Before;
    hide Row;
    CellMod(w, if y == 0 then 0 else Row(h, origin, y - 1), column);
    NextPlace(w, h, y, column, |done|);
    if y == 0 || column == w {
      CellIn(w, h, Row(h, origin, y), 0);
      AllRight(image, w, h, origin, y, column, done, y, 0, p, y + 1, 1, Row(h, origin, y) * w,
               image[Row(h, origin, y) * w := p]);
    } else {
      CellIn(w, h, Row(h, origin, y - 1), column);
      AllRight(image, w, h, origin, y, column, done, y - 1, column, p, y, column + 1, i, image[i := p]);
    }
  }

  /**
  A log of the writes: write k put pixel `places[k]` of the file, a row and a column, into cell `cells[k]`;
  the places ascend, and all lie before the current one.
  */
  ghost predicate Logged(w: nat, h: nat, origin: bool, y: nat, column: nat, places: seq<(nat, nat)>, cells: seq<nat>) {
    && |cells| == |places|
    && (forall k: nat | k < |places| ::
          var (b, c) := places[k]; b < h && c < w && Before(y, column, b, c) && cells[k] == Row(h, origin, b) * w + c)
    && (forall k: nat, l: nat | k < l < |places| :: places[k] != places[l])
  }

  lemma LogOne(w: nat, h: nat, origin: bool, y: nat, column: nat, places: seq<(nat, nat)>, cells: seq<nat>,
               b: nat, c: nat, y': nat, column': nat, cell: nat)
    requires Logged(w, h, origin, y, column, places, cells) && b < h && c < w && cell == Row(h, origin, b) * w + c
    requires !Before(y, column, b, c) && y' == b + 1 && column' == c + 1 && (y < y' || (y == y' && column < column'))
    ensures Logged(w, h, origin, y', column', places + [(b, c)], cells + [cell])
  {
  }

  /** The write that follows. */
  lemma LogNext(image: seq<Word32>, w: nat, h: nat, origin: bool, i: nat, y: nat, column: nat, done: seq<Word32>,
                places: seq<(nat, nat)>, cells: seq<nat>)
    requires Filled(image, w, h, origin, i, y, column, done) && |done| < w * h
             && Logged(w, h, origin, y, column, places, cells)
    ensures i % w == 0 ==> y < h && Logged(w, h, origin, y + 1, 1, places + [(y, 0)], cells + [Row(h, origin, y) * w])
    ensures i % w != 0 ==> y > 0 && Logged(w, h, origin, y, column + 1, places + [(y - 1, column)], cells + [i])
  {
    hide Right;
    hide Logged;
    CellMod(w, if y == 0 then 0 else Row(h, origin, y - 1), column);
    NextPlace(w, h, y, column, |done|);
    if y == 0 || column == w {
      LogOne(w, h, origin, y, column, places, cells, y, 0, y + 1, 1, Row(h, origin, y) * w);
    } else {
      LogOne(w, h, origin, y, column, places, cells, y - 1, column, y, column + 1, i);
    }
  }

  /** Cells of an image of n, no two the same. */
  predicate Apart(cells: seq<nat>, n: nat) {
    && (forall k: nat | k < |cells| :: cells[k] < n)
    && forall k: nat, l: nat | k < l < |cells| :: cells[k] != cells[l]
  }

  /** The cells are all there are, each once. */
  predicate EachOnce(cells: seq<nat>, n: nat) {
    |cells| == n && Apart(cells, n)
  }

  /** No cell is written twice, and none outside the image. */
  lemma WrittenOnce(w: nat, h: nat, origin: bool, y: nat, column: nat, places: seq<(nat, nat)>, cells: seq<nat>)
    requires Logged(w, h, origin, y, column, places, cells)
    ensures Apart(cells, w * h)
  {
    forall k: nat | k < |cells| ensures cells[k] < w * h {
      CellIn(w, h, Row(h, origin, places[k].0), places[k].1);
    }
    forall k: nat, l: nat | k < l < |cells| ensures cells[k] != cells[l] {
      var (b, c) := places[k];
      var (b', c') := places[l];
      if cells[k] == cells[l] {
        OneCell(w, Row(h, origin, b), c, Row(h, origin, b'), c');
      }
    }
  }

  /** The writes so far, and the variables i and y, are those that the cursor goes through. */
  ghost predicate Follows(w: Word16, h: Word16, origin: bool, c: Cursor, cells: seq<nat>) {
    w > 0 && c == CursorAt(w, h, origin, |cells|) && forall k: nat | k < |cells| :: cells[k] == Cell(w, h, origin, k)
  }

  lemma FollowsNext(w: Word16, h: Word16, origin: bool, c: Cursor, cells: seq<nat>, cell: nat, y: nat)
    requires Follows(w, h, origin, c, cells) && cell < w * h
    requires if c.i % w == 0 then c.y < h && cell == Row(h, origin, c.y) * w && y == c.y + 1
             else cell == c.i && y == c.y
    ensures Follows(w, h, origin, Cursor(cell + 1, y), cells + [cell])
  {
    hide CursorAt;
    hide Row;
    Small(w, h);
    if c.i % w == 0 {
      StepToRow(w, h, origin, |cells|, c, cell);
    } else {
      StepInRow(w, h, origin, |cells|, c);
    }
    hide Cell;
  }

  function NextCell(w: nat, h: nat, origin: bool, i: nat, y: nat): (cell: nat)
    requires w > 0 && (i % w == 0 ==> y < h)
  {
    if i % w == 0 then Row(h, origin, y) * w else i
  }

  /** One write, for the image, the log and the cursor together. */
  lemma PutNext(image: seq<Word32>, w: Word16, h: Word16, origin: bool, i: nat, y: nat, column: nat, done: seq<Word32>,
                places: seq<(nat, nat)>, cells: seq<nat>, p: Word32)
    requires Filled(image, w, h, origin, i, y, column, done) && |done| < w * h
    requires Logged(w, h, origin, y, column, places, cells) && Follows(w, h, origin, Cursor(i, y), cells)
    ensures w > 0 && (i % w == 0 ==> y < h)
    ensures var cell := NextCell(w, h, origin, i, y);
            var y', c := if i % w == 0 then y + 1 else y, if i % w == 0 then 0 else column;
            && cell < |image| && y' > 0 && Filled(image[cell := p], w, h, origin, cell + 1, y', c + 1, done + [p])
            && Logged(w, h, origin, y', c + 1, places + [(y' - 1, c)], cells + [cell])
            && Follows(w, h, origin, Cursor(cell + 1, y'), cells + [cell])
  {
    hide Filled;
    hide Logged;
    hide Follows;
    hide Row;
    FilledSize(image, w, h, origin, i, y, column, done);
    LogNext(image, w, h, origin, i, y, column, done, places, cells);
    Place(image, w, h, origin, i, y, column, done, p);
    FollowsNext(w, h, origin, Cursor(i, y), cells, NextCell(w, h, origin, i, y), if i % w == 0 then y + 1 else y);
  }

  /** The variables of the decoder loop: the image, i and y, and what has come so far. */
  class Decoder {
    const w: Word16
    const h: Word16
    const origin: bool
    const image: array<Word32>
    var i: nat
    var y: nat
    ghost var column: nat
    ghost var done: seq<Word32>
    ghost var places: seq<(nat, nat)>
    ghost var cells: seq<nat>

    ghost predicate Valid()
      reads this, image
    {
      && Filled(image[..], w, h, origin, i, y, column, done) && |cells| == |done|
      && Logged(w, h, origin, y, column, places, cells) && Follows(w, h, origin, Cursor(i, y), cells)
    }

    constructor (w: Word16, h: Word16, origin: bool)
      requires w > 0
      ensures Valid() && fresh(image) && done == [] && this.w == w && this.h == h && this.origin == origin
    {
      this.w, this.h, this.origin := w, h, origin;
      image := new Word32[w * h](_ => 0);
      i, y, column, done, places, cells := 0, 0, 0, [], [], [];
    }

    /** The body of the packet loops: each pixel is written once, to the cell that is its own. */
    method Put(p: Word32)
      requires Valid() && |done| < w * h
      modifies this`i, this`y, this`column, this`done, this`places, this`cells, image
      ensures Valid() && done == old(done) + [p]
    {
      hide Filled;
      hide Logged;
      hide Follows;
      PutNext(image[..], w, h, origin, i, y, column, done, places, cells, p);
      if i % w == 0 {
        i := (if !origin then h - y - 1 else y) * w;
        y, column := y + 1, 0;
      }
      assert i == NextCell(w, h, origin, old(i), old(y));
      hide NextCell;
      image[i] := p;
      assert image[..] == old(image[..])[i := p];
      places, cells := places + [(y - 1, column)], cells + [i];
      i, column := i + 1, column + 1;
      done := done + [p];
    }

    /** The loop over a run. */
    method PutRun(p: Word32, n: nat)
      requires Valid() && |done| + n <= w * h
      modifies this`i, this`y, this`column, this`done, this`places, this`cells, image
      ensures Valid() && done == old(done) + Repeat(p, n)
    {
      hide Filled;
      hide Logged;
      var k: nat := n;
      while k > 0
        invariant Valid() && k <= n && |done| + k <= w * h && done + Repeat(p, k) == old(done) + Repeat(p, n)
      {
        assert done + Repeat(p, k) == (done + [p]) + Repeat(p, k - 1);
        k := k - 1;
        Put(p);
      }
    }

    /** The loop over literal pixels. */
    method PutLiteral(data: seq<Byte>, at: nat, n: nat, alpha: bool) returns (next: nat)
      requires Valid() && |done| + n <= w * h && at + Span(alpha, n) <= |data|
      modifies this`i, this`y, this`column, this`done, this`places, this`cells, image
      ensures Valid() && done == old(done) + Literal(data, at, n, alpha) && next == at + Span(alpha, n)
    {
      hide Filled;
      hide Logged;
      hide PixelAt;
      var k: nat := n;
      next := at;
      while k > 0
        invariant Valid() && k <= n && |done| + k <= w * h && next + Span(alpha, k) == at + Span(alpha, n)
        invariant done + Literal(data, next, k, alpha) == old(done) + Literal(data, at, n, alpha)
      {
        var p := PixelAt(data, next, alpha);
        assert done + Literal(data, next, k, alpha) ==
               (done + [p]) + Literal(data, next + Span(alpha, 1), k - 1, alpha);
        k := k - 1;
        Put(p);
        next := next + Span(alpha, 1);
      }
    }

    /** One packet. */
    method PutPacket(data: seq<Byte>, at: nat, alpha: bool) returns (n: nat, next: nat)
      requires Valid() && Packet(data, at, alpha).Some? && |done| + |Packet(data, at, alpha).value.0| <= w * h
      modifies this`i, this`y, this`column, this`done, this`places, this`cells, image
      ensures Valid() && done == old(done) + Packet(data, at, alpha).value.0
      ensures next == Packet(data, at, alpha).value.1 && n == |Packet(data, at, alpha).value.0|
    {
      hide Filled;
      hide Logged;
      hide PixelAt;
      var k := data[at];
      if k > 127 {
        n := k - 127;
        PutRun(PixelAt(data, at + 1, alpha), n);
        next := at + 1 + Span(alpha, 1);
      } else {
        n := k + 1;
        next := PutLiteral(data, at + 1, n, alpha);
      }
    }

    /** The packet loop. */
    method Fill(data: seq<Byte>, start: nat, total: nat, alpha: bool)
      requires Valid() && done == [] && total == w * h && Expand(data, start, total, alpha).Some?
      modifies this`i, this`y, this`column, this`done, this`places, this`cells, image
      ensures Valid() && done == Expand(data, start, total, alpha).value
    {
      hide Filled;
      hide Logged;
      hide Packet;
      hide Expand;
      var x: nat, at: nat := 0, start;
      ghost var all := Expand(data, start, total, alpha).value;
      while x < total && at < |data|
        invariant Valid() && x == |done| <= total
        invariant Expand(data, at, total - x, alpha).Some? && done + Expand(data, at, total - x, alpha).value == all
        decreases total - x
      {
        ExpandStep(data, at, total - x, alpha);
        ghost var before, ps := done, Packet(data, at, alpha).value.0;
        var n, next := PutPacket(data, at, alpha);
        x, at := x + n, next;
        Assoc(before, ps, Expand(data, at, total - x, alpha).value);
      }
      ExpandEnds(data, at, total - x, alpha);
      assert done + [] == done;
    }

    /**
    The branch for encoding 10, on a stream of which no packet is cut off or passes the end of the image: the pixels
    come in row order, with the rows reversed when y_origin is zero, no cell is written twice, and when the stream has
    as many pixels as the image, each is written once.
    */
    method Decode(data: seq<Byte>, start: nat, alpha: bool)
      requires Valid() && done == [] && Expand(data, start, w * h, alpha).Some?
      modifies this`i, this`y, this`column, this`done, this`places, this`cells, image
      ensures Valid() && done == Expand(data, start, w * h, alpha).value
      ensures forall b: nat, c: nat | c < w && b * w + c < |done| :: Right(image[..], w, h, origin, done, b, c)
      ensures forall b: nat, c: nat | c < w && b * w + c < |done| ::
                FromFile(image[..], w, h, origin, data, start, alpha, b, c)
      ensures Apart(cells, w * h) && |cells| == |done|
              && forall k: nat | k < |cells| :: cells[k] == Cell(w, h, origin, k)
      ensures |done| == w * h ==> EachOnce(cells, w * h)
    {
      hide Filled;
      hide Logged;
      hide Expand;
      hide Right;
      hide Cell;
      Fill(data, start, w * h, alpha);
      AllFilled(image[..], w, h, origin, i, y, column, done);
      hide FromFile;
      forall b: nat, c: nat | c < w && b * w + c < |done|
        ensures FromFile(image[..], w, h, origin, data, start, alpha, b, c)
      {
        FileCell(image[..], w, h, origin, done, data, start, alpha, b, c);
      }
      WrittenOnce(w, h, origin, y, column, places, cells);
    }
  }

  lemma FilledSize(image: seq<Word32>, w: nat, h: nat, origin: bool, i: nat, y: nat, column: nat, done: seq<Word32>)
    requires Filled(image, w, h, origin, i, y, column, done)
    ensures |image| == w * h && w > 0 && y <= h
  {
  }

  /** All the pixels that have come are right. */
  lemma AllFilled(image: seq<Word32>, w: nat, h: nat, origin: bool, i: nat, y: nat, column: nat, done: seq<Word32>)
    requires Filled(image, w, h, origin, i, y, column, done)
    ensures forall b: nat, c: nat | c < w && b * w + c < |done| :: Right(image, w, h, origin, done, b, c)
  {
    hide Right;
    forall b: nat, c: nat | c < w && b * w + c < |done| ensures Before(y, column, b, c) {
      InOrder(w, y, column, b, c);
    }
  }

  lemma InOrder(w: nat, y: nat, column: nat, b: nat, c: nat)
    requires c < w && y > 0 && column <= w && b * w + c < (y - 1) * w + column
    ensures Before(y, column, b, c)
  {
    if b > y - 1 {
      AtLeast(b - (y - 1), w);
      assert (b - (y - 1)) * w == b * w - (y - 1) * w;
    }
  }
}

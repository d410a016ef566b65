/**
Saving and loading PNG images: the red and blue swap, the filters, the zlib wrapping and the chunks.
Deflate and the two checksums are parameters.
*/
module Png {
  import opened Options
  import opened Bytes
  import opened PngFilter
  import opened PngChunks
  import opened PngDecoder

  /** unpack yields the data and how many bytes it used. */
  datatype Codec = Codec(crc: Crc, adler: Crc, pack: seq<Byte> -> seq<Byte>,
                         unpack: seq<Byte> -> Option<(seq<Byte>, nat)>)

  /** unpack inverts pack, whatever follows. */
  ghost predicate Lawful(codec: Codec) {
    forall x, rest :: codec.unpack(codec.pack(x) + rest) == Some((x, |codec.pack(x)|))
  }

  /** graphics_raw_image_t: pixels in row order. */
  datatype Image = Image(width: Word32, height: Word32, pixels: seq<Word32>)

  /** A size that is not empty, and whose row length and pixel count fit the 32-bit products of the code. */
  predicate SizeOk(w: Word32, h: Word32) {
    0 < w < 0x4000_0000 && h > 0 && Base(w, h) < 0x1_0000_0000
  }

  /** An image of such a size, with a pixel in every place. */
  predicate Proper(m: Image) {
    SizeOk(m.width, m.height) && |m.pixels| == Base(m.width, m.height)
  }

  // ---- Pixels and bytes ----

  /** The bytes of a pixel array in memory. */
  function PixelBytes(ps: seq<Word32>): (b: seq<Byte>)
    ensures |b| == 4 * |ps|
  {
    if ps == [] then [] else PixelBytes(ps[..|ps| - 1]) + Le32(ps[|ps| - 1])
  }

  function BytePixels(b: seq<Byte>, n: nat): (ps: seq<Word32>)
    requires |b| == 4 * n
    ensures |ps| == n
  {
    if n == 0 then [] else BytePixels(b[..4 * (n - 1)], n - 1) + [FromLe32(b[4 * (n - 1)..])]
  }

  lemma {:induction false} PixelsBack(ps: seq<Word32>)
    ensures BytePixels(PixelBytes(ps), |ps|) == ps
  {
    hide Le32;
    hide FromLe32;
    if ps != [] {
      var q, n := ps[..|ps| - 1], |ps| - 1;
      PixelsBack(q);
      Le32Back(ps[n]);
      assert PixelBytes(ps)[..4 * n] == PixelBytes(q) && PixelBytes(ps)[4 * n..] == Le32(ps[n]);
      assert ps == q + [ps[n]];
    }
  }

  /** The channels of a pixel with red and blue swapped. */
  function Swap(p: Word32): (q: Word32) {
    var b := Le32(p);
    FromLe32([b[2], b[1], b[0], b[3]])
  }

  /** The first and the third byte change places, the others stay. */
  lemma SwapBytes(p: Word32)
    ensures var b, c := Le32(p), Le32(Swap(p)); c[0] == b[2] && c[1] == b[1] && c[2] == b[0] && c[3] == b[3]
  {
    var b := Le32(p);
    Le32There([b[2], b[1], b[0], b[3]]);
  }

  function Swapped(ps: seq<Word32>): (qs: seq<Word32>)
    ensures |qs| == |ps| && forall i: nat | i < |ps| :: qs[i] == Swap(ps[i])
  {
    seq(|ps|, i requires 0 <= i < |ps| => Swap(ps[i]))
  }

  lemma SwappedTwice(ps: seq<Word32>)
    ensures Swapped(Swapped(ps)) == ps
  {
  }

  /** The loop at the start of graphics_save_png_image and at the end of graphics_load_png_image. */
  method SwapAll(ps: seq<Word32>) returns (qs: seq<Word32>)
    ensures qs == Swapped(ps)
  {
    hide Swap;
    qs := [];
    for i := 0 to |ps|
      invariant |qs| == i && forall j: nat | j < i :: qs[j] == Swap(ps[j])
    {
      qs := qs + [Swap(ps[i])];
    }
  }

  lemma {:induction false} BaseFour(w: nat, h: nat)
    ensures Base(4 * w, h) == 4 * Base(w, h)
  {
    if h > 0 {
      BaseFour(w, h - 1);
    }
  }

  // ---- The zlib wrapping ----

  function Zip(codec: Codec, r: seq<Byte>): (z: seq<Byte>) {
    [0x78, 0xDA] + codec.pack(r) + Be32(codec.adler(r))
  }

  /** The part of png_decoder_get_image before defiltering: the filtered rows, or failure. */
  function Unzip(codec: Codec, z: seq<Byte>, length: nat): (r: Option<seq<Byte>>)
    ensures r.Some? ==> |r.value| == length
  {
    if |z| < 2 || z[..2] !in {[0x78, 0xDA], [0x78, 0xD8], [0x58, 0xC3]} then None else
    match codec.unpack(z[2..])
    case None => None
    case Some((out, used)) =>
      if used + 6 != |z| || |out| != length || FromBe32(z[|z| - 4..]) != codec.adler(out) then None else Some(out)
  }

  lemma {:induction false} ZipBack(codec: Codec, r: seq<Byte>)
    requires Lawful(codec)
    ensures Unzip(codec, Zip(codec, r), |r|) == Some(r)
  {
    hide Be32;
    hide FromBe32;
    var z, p, a := Zip(codec, r), codec.pack(r), Be32(codec.adler(r));
    assert z[..2] == [0x78, 0xDA] && z[2..] == p + a && z[|z| - 4..] == a;
    Be32Back(codec.adler(r));
  }

  // ---- Loading ----

  function Width(cs: seq<Chunk>): (w: Word32)
    requires |cs| > 0 && HeaderOk(cs[0].payload)
    ensures w == NumberAt(cs[0].payload, 0)
  {
    FromBe32(cs[0].payload[..4])
  }

  function Height(cs: seq<Chunk>): (h: Word32)
    requires |cs| > 0 && HeaderOk(cs[0].payload)
    ensures h == NumberAt(cs[0].payload, 4)
  {
    FromBe32(cs[0].payload[4..8])
  }

  /** The image with this header and compressed data, if it is one and of a size that fits. */
  function ImageWith(codec: Codec, w: Word32, h: Word32, z: seq<Byte>): (m: Option<Image>)
    ensures m.Some? ==> Proper(m.value)
  {
    if !SizeOk(w, h) then None else
    match Unzip(codec, z, Base(4 * w + 1, h))
    case None => None
    case Some(r) =>
      BaseFour(w, h);
      Some(Image(w, h, Swapped(BytePixels(Unfiltered(r, 4 * w, h), Base(w, h)))))
  }

  /**
  What graphics_load_png_image comes to: an image, the null pointer, a use of an image or of compressed data that is
  not there, or a size that the model leaves out.
  */
  datatype Outcome = Got(image: Image) | Null | Missing | OtherSize(width: Word32, height: Word32)

  /** graphics_load_png_image, given errno on entry. */
  function Loaded(codec: Codec, data: seq<Byte>, errno: int): (o: Outcome) {
    match Parse(codec.crc, data)
    case None => if errno % 256 == 0 && UnreportedFile(codec.crc, data) then Missing else Null
    case Some(cs) =>
      ParseIff(codec.crc, data, cs);
      var w, h := Width(cs), Height(cs);
      if !SizeOk(w, h) then OtherSize(w, h) else
      match ImageWith(codec, w, h, ImageData(cs))
      case None => Missing
      case Some(m) => Got(m)
  }

  /** A file with a good header and the chunks of the grammar. */
  ghost predicate WellFormed(crc: Crc, data: seq<Byte>, cs: seq<Chunk>) {
    AllFit(cs) && data == SIGNATURE + Stream(crc, cs) && Grammar(cs)
  }

  /**
  The load goes on without an image exactly when the low byte of errno is 0 and the file is cut in one of the ways
  that set no errno, or when the file is well formed and its image data is not that of an image of its size.
  */
  lemma MissingIff(codec: Codec, data: seq<Byte>, errno: int)
    ensures Loaded(codec, data, errno) == Missing <==>
            || (errno % 256 == 0 && exists cs: seq<Chunk>, tail: seq<Byte> :: CutFile(codec.crc, data, cs, tail))
            || (exists cs: seq<Chunk> ::
                  && WellFormed(codec.crc, data, cs) && SizeOk(Width(cs), Height(cs))
                  && Unzip(codec, ImageData(cs), Base(4 * Width(cs) + 1, Height(cs))).None?)
  {
    hide Unzip;
    hide CutFile;
    hide ImageData;
    hide Stream;
    hide Grammar;
    hide Parse;
    hide SizeOk;
    hide UnreportedFile;
    hide AllFit;
    hide Width;
    hide Height;
    UnreportedIff(codec.crc, data);
    CutNotParsed(codec.crc, data);
    forall cs: seq<Chunk>
      ensures Parse(codec.crc, data) == Some(cs) <==> WellFormed(codec.crc, data, cs)
    {
      ParseIff(codec.crc, data, cs);
    }
    if Parse(codec.crc, data).Some? {
      assert WellFormed(codec.crc, data, Parse(codec.crc, data).value);
    }
  }

  lemma CutNotParsed(crc: Crc, data: seq<Byte>)
    ensures UnreportedFile(crc, data) ==> Parse(crc, data) == None
  {
    if UnreportedFile(crc, data) {
      UnreportedNotParsed(crc, data, 8, []);
    }
  }

  /** png_decoder_get_image, with the swap that follows it. */
  method GetImage(codec: Codec, w: Word32, h: Word32, z: seq<Byte>) returns (m: Option<Image>)
    ensures m == ImageWith(codec, w, h, z)
  {
    hide Unzip;
    hide Unfiltered;
    hide BytePixels;
    hide Swapped;
    hide Base;
    if !SizeOk(w, h) {
      return None;
    }
    var r := Unzip(codec, z, Base(4 * w + 1, h));
    if r.None? {
      return None;
    }
    var dst := Defilter(r.value, w, h);
    BaseFour(w, h);
    var ps := SwapAll(BytePixels(dst[..], Base(w, h)));
    m := Some(Image(w, h, ps));
  }

  method Load(codec: Codec, data: seq<Byte>, errno: int) returns (o: Outcome)
    requires |data| < 0x1_0000_0000
    ensures o == Loaded(codec, data, errno)
  {
    hide ParseFrom;
    hide UnreportedFrom;
    hide ImageWith;
    hide FromBe32;
    hide ImageData;
    hide Count;
    hide Stream;
    if data == [] {
      return Null;
    }
    ShortFile(codec.crc, data);
    var d := new Decoder(codec.crc, data, errno);
    var ret := d.Init();
    if ret != 0 {
      return Null;
    }
    ret := d.ParseChunks();
    if ret != 0 {
      return Null;
    }
    if !d.live {
      return Missing;
    }
    ParseIff(codec.crc, data, d.done);
    if !SizeOk(d.width, d.height) {
      return OtherSize(d.width, d.height);
    }
    var m := GetImage(codec, d.width, d.height, d.compressed);
    o := if m.None? then Missing else Got(m.value);
  }

  /** A file that is too short for the signature has nothing to parse. */
  lemma ShortFile(crc: Crc, data: seq<Byte>)
    ensures 0 < |data| < 8 ==> ParseFrom(crc, data, 0, []).None? && !UnreportedFrom(crc, data, 0, [])
  {
  }

  /** The pixels of a byte array, four bytes to each. */
  lemma {:induction false} BytePixelsAt(b: seq<Byte>, n: nat, i: nat)
    requires |b| == 4 * n && i < n
    ensures Le32(BytePixels(b, n)[i]) == b[4 * i..4 * i + 4]
  {
    hide Le32;
    hide FromLe32;
    var m := 4 * (n - 1);
    if i < n - 1 {
      BytePixelsAt(b[..m], n - 1, i);
      assert b[..m][4 * i..4 * i + 4] == b[4 * i..4 * i + 4];
    } else {
      Le32There(b[m..]);
      assert b[m..] == b[4 * i..4 * i + 4];
    }
  }

  /** Pixel i of a loaded image, of the decoded bytes s: red and blue, the first and the third byte, changed places. */
  predicate PixelOf(p: Word32, s: seq<Byte>, i: nat) {
    4 * i + 4 <= |s| && Le32(p) == [s[4 * i + 2], s[4 * i + 1], s[4 * i], s[4 * i + 3]]
  }

  /** The bytes s are the image that the filtered rows r say, by their filter numbers. */
  ghost predicate Decodes(r: seq<Byte>, s: seq<Byte>, w: nat, h: nat) {
    forall y: nat, x: nat | y < h && x < 4 * w :: DecodedAt(r, s, 4 * w, y, x)
  }

  /**
  What a loaded image is, without the functions that load it: the data is a zlib header, a packed body and a checksum;
  the body unpacks to rows that each start with a filter number; every byte of every row is what its number says; and
  each pixel is four of these bytes, red and blue changed.
  */
  lemma ImageMeans(codec: Codec, w: Word32, h: Word32, z: seq<Byte>, r: seq<Byte>, s: seq<Byte>)
    requires ImageWith(codec, w, h, z).Some? && Unzip(codec, z, Base(4 * w + 1, h)) == Some(r)
    requires s == Unfiltered(r, 4 * w, h)
    ensures var m := ImageWith(codec, w, h, z).value;
            && m.width == w && m.height == h && |m.pixels| == Base(w, h) && Decodes(r, s, w, h)
            && forall i: nat | i < |m.pixels| :: PixelOf(m.pixels[i], s, i)
  {
    hide Unzip;
    hide Unfiltered;
    hide BytePixels;
    hide Base;
    hide Swap;
    hide Le32;
    BaseFour(w, h);
    var ps := BytePixels(s, Base(w, h));
    var m := ImageWith(codec, w, h, z).value;
    assert m.pixels == Swapped(ps);
    forall i: nat | i < |m.pixels| ensures PixelOf(m.pixels[i], s, i) {
      BytePixelsAt(s, Base(w, h), i);
      SwapBytes(ps[i]);
      assert Le32(m.pixels[i]) == [s[4 * i + 2], s[4 * i + 1], s[4 * i], s[4 * i + 3]];
    }
    hide DecodedAt;
    forall y: nat, x: nat | y < h && x < 4 * w ensures DecodedAt(r, s, 4 * w, y, x) {
      DecodedBytes(r, 4 * w, h, y, x);
    }
  }

  /** A zlib header, a body that unpacks to r, and r's checksum. */
  predicate IsZip(codec: Codec, z: seq<Byte>, head: seq<Byte>, body: seq<Byte>, r: seq<Byte>) {
    && z == head + body + Be32(codec.adler(r)) && head in {[0x78, 0xDA], [0x78, 0xD8], [0x58, 0xC3]}
    && codec.unpack(body + Be32(codec.adler(r))) == Some((r, |body|))
  }

  /** The data is unwrapped to r exactly when it is such. */
  lemma UnzipIff(codec: Codec, z: seq<Byte>, r: seq<Byte>)
    ensures Unzip(codec, z, |r|) == Some(r) <==> exists head, body :: IsZip(codec, z, head, body, r)
  {
    hide Be32;
    hide FromBe32;
    if Unzip(codec, z, |r|) == Some(r) {
      var head, body, sum := z[..2], z[2..|z| - 4], z[|z| - 4..];
      Be32There(sum);
      assert z == head + body + sum && z[2..] == body + sum;
      assert IsZip(codec, z, head, body, r);
    }
    if head, body :| IsZip(codec, z, head, body, r) {
      var sum := Be32(codec.adler(r));
      assert z[..2] == head && z[2..] == body + sum && z[|z| - 4..] == sum;
      Be32Back(codec.adler(r));
    }
  }

  // ---- Saving ----

  const PIECE: nat := 32768

  /** The image data cut into IDAT chunks. */
  function Pieces(z: seq<Byte>): (cs: seq<Chunk>)
    ensures AllFit(cs) && forall c | c in cs :: c.kind == IDAT && 0 < |c.payload| <= PIECE
    decreases |z|
  {
    if z == [] then [] else
    var n := if |z| < PIECE then |z| else PIECE;
    [Chunk(IDAT, z[..n])] + Pieces(z[n..])
  }

  /** All pieces but the last hold 32768 bytes. */
  lemma {:induction false} PieceSizes(z: seq<Byte>, i: nat)
    requires i < |Pieces(z)|
    ensures i + 1 < |Pieces(z)| ==> |Pieces(z)[i].payload| == 32768
    ensures i + 1 == |Pieces(z)| ==> 0 < |Pieces(z)[i].payload| <= 32768
    decreases |z|
  {
    var n := if |z| < PIECE then |z| else PIECE;
    if i > 0 {
      PieceSizes(z[n..], i - 1);
    } else if |z| <= PIECE {
      assert z[n..] == [];
    }
  }

  function Header(w: Word32, h: Word32): (c: Chunk)
    ensures c.kind == IHDR && HeaderOk(c.payload) && Fits(c)
    ensures Be32(w) == c.payload[..4] && Be32(h) == c.payload[4..8] && c.payload[8..] == [8, 6, 0, 0, 0]
  {
    hide Be32;
    Chunk(IHDR, Be32(w) + Be32(h) + [8, 6, 0, 0, 0])
  }

  const END := Chunk(IEND, [])

  function SaveChunks(w: Word32, h: Word32, z: seq<Byte>): (cs: seq<Chunk>)
    ensures AllFit(cs)
  {
    [Header(w, h)] + Pieces(z) + [END]
  }

  /** The file for an image, given the filter of each row. */
  function Saved(codec: Codec, m: Image, fs: seq<Filter>): (data: seq<Byte>)
    requires Proper(m) && |fs| == m.height
  {
    var n := 4 * m.width;
    BaseFour(m.width, m.height);
    var r := Filtered(fs, PixelBytes(Swapped(m.pixels)), n, m.height);
    SIGNATURE + Stream(codec.crc, SaveChunks(m.width, m.height, Zip(codec, r)))
  }

  lemma {:induction false} StreamCat(crc: Crc, a: seq<Chunk>, b: seq<Chunk>)
    requires AllFit(a) && AllFit(b)
    ensures Stream(crc, a + b) == Stream(crc, a) + Stream(crc, b)
  {
    hide Frame;
    if a == [] {
      assert a + b == b;
    } else {
      StreamCat(crc, a[1..], b);
      assert (a + b)[1..] == a[1..] + b;
    }
  }

  lemma {:induction false} PieceStep(crc: Crc, z: seq<Byte>, pos: nat, n: nat)
    requires pos < |z| && n == if |z| - pos < PIECE then |z| - pos else PIECE
    ensures Fits(Chunk(IDAT, z[pos..pos + n]))
    ensures Stream(crc, Pieces(z[pos..])) ==
            Frame(crc, Chunk(IDAT, z[pos..pos + n])) + Stream(crc, Pieces(z[pos + n..]))
  {
    hide Frame;
    var c, rest := Chunk(IDAT, z[pos..pos + n]), Pieces(z[pos + n..]);
    assert z[pos..][..n] == c.payload && z[pos..][n..] == z[pos + n..];
    assert Pieces(z[pos..]) == [c] + rest;
    assert ([c] + rest)[1..] == rest;
  }

  lemma {:induction false} NoPieces(crc: Crc)
    ensures Stream(crc, Pieces([])) == []
  {
  }

  /** The loop of png_encoder_build_png that writes the image data. */
  method AppendPieces(crc: Crc, start: seq<Byte>, z: seq<Byte>) returns (out: seq<Byte>)
    ensures out == start + Stream(crc, Pieces(z))
  {
    hide Frame;
    hide Stream;
    hide Pieces;
    out := start;
    var pos := 0;
    assert z[0..] == z;
    ghost var all := start + Stream(crc, Pieces(z));
    while pos < |z|
      invariant pos <= |z| && all == out + Stream(crc, Pieces(z[pos..]))
    {
      var n := if |z| - pos < PIECE then |z| - pos else PIECE;
      PieceStep(crc, z, pos, n);
      var piece := Frame(crc, Chunk(IDAT, z[pos..pos + n]));
      Assoc(out, piece, Stream(crc, Pieces(z[pos + n..])));
      out := out + piece;
      pos := pos + n;
    }
    assert z[pos..] == [];
    NoPieces(crc);
  }

  lemma {:induction false} SaveStream(crc: Crc, w: Word32, h: Word32, z: seq<Byte>)
    ensures Stream(crc, SaveChunks(w, h, z)) == Frame(crc, Header(w, h)) + Stream(crc, Pieces(z)) + Frame(crc, END)
  {
    hide Frame;
    hide Header;
    hide Pieces;
    StreamCat(crc, [Header(w, h)], Pieces(z));
    StreamCat(crc, [Header(w, h)] + Pieces(z), [END]);
  }

  /** png_encoder_build_png. */
  method BuildPng(crc: Crc, w: Word32, h: Word32, z: seq<Byte>) returns (out: seq<Byte>)
    ensures out == SIGNATURE + Stream(crc, SaveChunks(w, h, z))
  {
    hide Frame;
    hide Header;
    hide Stream;
    hide SaveChunks;
    SaveStream(crc, w, h, z);
    out := SIGNATURE + Frame(crc, Header(w, h));
    out := AppendPieces(crc, out, z);
    out := out + Frame(crc, END);
  }

  /** graphics_save_png_image: each row has a filter of least cost. The filters chosen are returned beside the file. */
  method Save(codec: Codec, m: Image) returns (data: seq<Byte>, fs: seq<Filter>)
    requires Proper(m)
    ensures |fs| == m.height && data == Saved(codec, m, fs)
    ensures AllBest(fs, PixelBytes(Swapped(m.pixels)), 4 * m.width)
  {
    hide Stream;
    hide SaveChunks;
    hide Filtered;
    hide AllBest;
    hide Base;
    var ps := SwapAll(m.pixels);
    BaseFour(m.width, m.height);
    var r;
    r, fs := ApplyFilters(PixelBytes(ps), m.width, m.height);
    data := BuildPng(codec.crc, m.width, m.height, Zip(codec, r));
  }

  // ---- The round trip ----

  lemma {:induction false} ImageDataCat(a: seq<Chunk>, b: seq<Chunk>)
    ensures ImageData(a + b) == ImageData(a) + ImageData(b)
    decreases |b|
  {
    if b == [] {
      assert a + b == a;
    } else {
      ImageDataCat(a, b[..|b| - 1]);
      assert (a + b)[..|a + b| - 1] == a + b[..|b| - 1];
    }
  }

  /** The pieces together are the data. */
  lemma {:induction false} PiecesTogether(z: seq<Byte>)
    ensures ImageData(Pieces(z)) == z
    decreases |z|
  {
    if z != [] {
      var n := if |z| < PIECE then |z| else PIECE;
      PiecesTogether(z[n..]);
      ImageDataCat([Chunk(IDAT, z[..n])], Pieces(z[n..]));
      assert ImageData([Chunk(IDAT, z[..n])]) == z[..n] by {
        assert [Chunk(IDAT, z[..n])][..0] == [];
      }
      assert z == z[..n] + z[n..];
    }
  }

  lemma {:induction false} SaveGrammar(w: Word32, h: Word32, z: seq<Byte>)
    ensures Grammar(SaveChunks(w, h, z))
  {
    hide Header;
    hide HeaderOk;
    hide Pieces;
    var cs, p := SaveChunks(w, h, z), Pieces(z);
    assert cs[0] == Header(w, h) && cs[|cs| - 1] == END;
    forall i: nat | 0 < i < |cs| - 1 ensures cs[i].kind == IDAT {
      assert cs[i] == p[i - 1] && p[i - 1] in p;
    }
  }

  lemma {:induction false} SaveData(w: Word32, h: Word32, z: seq<Byte>)
    ensures ImageData(SaveChunks(w, h, z)) == z
  {
    hide Header;
    hide Pieces;
    var head := Header(w, h);
    PiecesTogether(z);
    ImageDataCat([head] + Pieces(z), [END]);
    ImageDataCat([head], Pieces(z));
    assert [head][..0] == [] && [END][..0] == [];
    assert ImageData([head]) == [] && ImageData([END]) == [];
  }

  lemma {:induction false} SaveSize(w: Word32, h: Word32, z: seq<Byte>)
    ensures var cs := SaveChunks(w, h, z); |cs| > 0 && HeaderOk(cs[0].payload) && Width(cs) == w && Height(cs) == h
  {
  }

  /** The pixels come back through filtering and compression. */
  lemma {:induction false} ImageBack(codec: Codec, m: Image, fs: seq<Filter>)
    requires Lawful(codec) && Proper(m) && |fs| == m.height
    ensures 4 * |m.pixels| == Base(4 * m.width, m.height)
    ensures ImageWith(codec, m.width, m.height,
                      Zip(codec, Filtered(fs, PixelBytes(Swapped(m.pixels)), 4 * m.width, m.height))) == Some(m)
  {
    hide Filtered;
    hide Unfiltered;
    hide Unzip;
    hide Zip;
    hide Swapped;
    hide PixelBytes;
    hide BytePixels;
    hide Base;
    hide Lawful;
    var w, h, n := m.width, m.height, 4 * m.width;
    BaseFour(w, h);
    var s := PixelBytes(Swapped(m.pixels));
    ZipBack(codec, Filtered(fs, s, n, h));
    Undone(fs, s, n, h, h);
    assert s[..|s|] == s;
    PixelsBack(Swapped(m.pixels));
    SwappedTwice(m.pixels);
  }

  /** Loading what was saved gives the image back, whatever filters the rows had. */
  lemma {:induction false} RoundTrip(codec: Codec, m: Image, fs: seq<Filter>)
    requires Lawful(codec) && Proper(m) && |fs| == m.height
    ensures forall errno :: Loaded(codec, Saved(codec, m, fs), errno) == Got(m)
  {
    hide Filtered;
    hide Zip;
    hide Grammar;
    hide Parse;
    hide Stream;
    hide SaveChunks;
    hide ImageData;
    hide Swapped;
    hide PixelBytes;
    hide ImageWith;
    hide Lawful;
    hide Width;
    hide Height;
    ImageBack(codec, m, fs);
    var r := Filtered(fs, PixelBytes(Swapped(m.pixels)), 4 * m.width, m.height);
    var z := Zip(codec, r);
    SaveGrammar(m.width, m.height, z);
    SaveData(m.width, m.height, z);
    SaveSize(m.width, m.height, z);
    ParseIff(codec.crc, Saved(codec, m, fs), SaveChunks(m.width, m.height, z));
  }
}

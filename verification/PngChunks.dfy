/**
The chunk layer of the PNG decoder: framing and checksums, the rules on chunk order, and the streams
that pass. The checksum is a parameter.
*/
module PngChunks {
  import opened Options
  import opened Bytes

  /** png_chunk_type_t, in its order. */
  datatype Kind =
    | IHDR | CHRM | GAMA | ICCP | SBIT | SRGB | PLTE | BKGD | HIST | TRNS | PHYS | SPLT
    | IDAT | TIME | ITXT | TEXT | ZTXT | IEND

  /** png_chunk_type_strings. */
  function Code(k: Kind): (n: Word32) {
    match k
    case IHDR => 0x52444849
    case CHRM => 0x4D524863
    case GAMA => 0x414D4167
    case ICCP => 0x50434369
    case SBIT => 0x54494273
    case SRGB => 0x42475273
    case PLTE => 0x45544C50
    case BKGD => 0x44474B62
    case HIST => 0x54534968
    case TRNS => 0x534E5254
    case PHYS => 0x73594870
    case SPLT => 0x544C5073
    case IDAT => 0x54414449
    case TIME => 0x454D4974
    case ITXT => 0x74545869
    case TEXT => 0x74584574
    case ZTXT => 0x7448547A
    case IEND => 0x444E4549
  }

  /** png_chunk_type_from_uint32. */
  function KindOf(n: Word32): (k: Option<Kind>)
    ensures k.Some? ==> Code(k.value) == n
    ensures k.None? ==> forall j: Kind :: Code(j) != n
  {
    if n == Code(IHDR) then Some(IHDR) else if n == Code(CHRM) then Some(CHRM)
    else if n == Code(GAMA) then Some(GAMA) else if n == Code(ICCP) then Some(ICCP)
    else if n == Code(SBIT) then Some(SBIT) else if n == Code(SRGB) then Some(SRGB)
    else if n == Code(PLTE) then Some(PLTE) else if n == Code(BKGD) then Some(BKGD)
    else if n == Code(HIST) then Some(HIST) else if n == Code(TRNS) then Some(TRNS)
    else if n == Code(PHYS) then Some(PHYS) else if n == Code(SPLT) then Some(SPLT)
    else if n == Code(IDAT) then Some(IDAT) else if n == Code(TIME) then Some(TIME)
    else if n == Code(ITXT) then Some(ITXT) else if n == Code(TEXT) then Some(TEXT)
    else if n == Code(ZTXT) then Some(ZTXT) else if n == Code(IEND) then Some(IEND)
    else None
  }

  lemma KindBack(k: Kind)
    ensures KindOf(Code(k)) == Some(k)
  {
  }

  /** The name of a chunk type in the PNG specification. */
  function Name(k: Kind): (n: string)
    ensures |n| == 4
  {
    match k
    case IHDR => "IHDR" case CHRM => "cHRM" case GAMA => "gAMA" case ICCP => "iCCP" case SBIT => "sBIT"
    case SRGB => "sRGB" case PLTE => "PLTE" case BKGD => "bKGD" case HIST => "hIST" case TRNS => "tRNS"
    case PHYS => "pHYs" case SPLT => "sPLT" case IDAT => "IDAT" case TIME => "tIME" case ITXT => "iTXt"
    case TEXT => "tEXt" case ZTXT => "zTXt" case IEND => "IEND"
  }

  /** The characters of a name, as they lie in a file. */
  function NameBytes(n: string): (b: seq<int>)
    requires |n| == 4
  {
    [n[0] as int, n[1] as int, n[2] as int, n[3] as int]
  }

  /** Of the chunk types exactly three do not have the name that the specification gives them. */
  lemma NamesIff(k: Kind)
    ensures Le32(Code(k)) == NameBytes(Name(k)) <==> k !in {TRNS, ITXT, ZTXT}
  {
    hide Le32;
    var b := NameBytes(Name(k));
    assert forall i: nat | i < 4 :: 0 <= b[i] < 128;
    Le32Digits(Code(k), b);
    assert Code(k) == Number4(b[3], b[2], b[1], b[0]) <==> k !in {TRNS, ITXT, ZTXT};
  }

  /** So a chunk with one of these three names is of an unknown type. */
  lemma Misnamed(k: Kind, n: Word32)
    requires k in {TRNS, ITXT, ZTXT} && Le32(n) == NameBytes(Name(k))
    ensures KindOf(n).None?
  {
    Le32Back(n);
  }

  /** png_chunk_type_allow_multiple. */
  predicate Multiple(k: Kind) {
    k in {IDAT, SPLT, ITXT, TEXT, ZTXT}
  }

  datatype Chunk = Chunk(kind: Kind, payload: seq<Byte>)

  type Crc = seq<Byte> -> Word32

  /** A chunk's length fits in 32 bits. */
  predicate Fits(c: Chunk) {
    |c.payload| < 0x1_0000_0000
  }

  function Frame(crc: Crc, c: Chunk): (b: seq<Byte>)
    requires Fits(c)
    ensures |b| == 12 + |c.payload|
  {
    Be32(|c.payload|) + Le32(Code(c.kind)) + c.payload + Be32(crc(Le32(Code(c.kind)) + c.payload))
  }

  /** A number of four bytes of a file, the most significant first. */
  function NumberAt(b: seq<Byte>, i: nat): (n: int)
    requires i + 4 <= |b|
  {
    Number4(b[i], b[i + 1], b[i + 2], b[i + 3])
  }

  /** The layout of a chunk: its length, its type, its contents, and the checksum of type and contents. */
  lemma FrameMeans(crc: Crc, c: Chunk)
    requires Fits(c)
    ensures var b, n := Frame(crc, c), |c.payload|;
            && |b| == 12 + n && NumberAt(b, 0) == n && b[8..8 + n] == c.payload
            && (c.kind !in {TRNS, ITXT, ZTXT} ==> b[4..8] == NameBytes(Name(c.kind)))
            && NumberAt(b, 8 + n) == crc(b[4..8 + n])
  {
    NamesIff(c.kind);
    hide Code;
    hide Be32;
    hide Le32;
    hide Name;
    var n, t := |c.payload|, Le32(Code(c.kind));
    var sum := crc(t + c.payload);
    Be32Back(n);
    Be32Means(Be32(n));
    Be32Back(sum);
    Be32Means(Be32(sum));
    hide FromBe32;
    var b := Frame(crc, c);
    Parts(Be32(n), t, c.payload, Be32(sum), b);
    assert forall i: nat | i < 4 :: b[i] == Be32(n)[i] && b[8 + n + i] == Be32(sum)[i];
  }

  function Stream(crc: Crc, cs: seq<Chunk>): (b: seq<Byte>)
    requires forall c | c in cs :: Fits(c)
  {
    if cs == [] then [] else Frame(crc, cs[0]) + Stream(crc, cs[1..])
  }

  /** The chunk at a position, when its length, type and checksum are in order, and the position after it. */
  function Next(crc: Crc, data: seq<Byte>, pos: nat): (r: Option<(Chunk, nat)>)
    requires pos <= |data|
    ensures r.Some? ==> pos + 12 <= r.value.1 <= |data| && Fits(r.value.0)
  {
    if |data| - pos < 12 then None else
    var n := FromBe32(data[pos..pos + 4]);
    var kind := KindOf(FromLe32(data[pos + 4..pos + 8]));
    if kind.None? || pos + 12 + n > |data| then None else
    var body := data[pos + 8..pos + 8 + n];
    if FromBe32(data[pos + 8 + n..pos + 12 + n]) != crc(data[pos + 4..pos + 8 + n]) then None
    else Some((Chunk(kind.value, body), pos + 12 + n))
  }

  /** What is read is a frame, and a frame is read back. */
  lemma NextSound(crc: Crc, data: seq<Byte>, pos: nat)
    requires pos <= |data|
    ensures Next(crc, data, pos).Some? ==> var (c, p) := Next(crc, data, pos).value; data[pos..p] == Frame(crc, c)
  {
    if Next(crc, data, pos).None? {
      return;
    }
    hide Be32;
    hide Le32;
    hide FromBe32;
    hide FromLe32;
    hide KindOf;
    hide Code;
    var n, t := FromBe32(data[pos..pos + 4]), data[pos + 4..pos + 8];
    var body := data[pos + 8..pos + 8 + n];
    Be32There(data[pos..pos + 4]);
    Le32There(t);
    Be32There(data[pos + 8 + n..pos + 12 + n]);
    Split(data, pos + 4, pos + 8, pos + 8 + n);
    Split(data, pos, pos + 4, pos + 8);
    Split(data, pos, pos + 8, pos + 8 + n);
    Split(data, pos, pos + 8 + n, pos + 12 + n);
  }

  lemma Split(data: seq<Byte>, i: nat, j: nat, k: nat)
    requires i <= j <= k <= |data|
    ensures data[i..k] == data[i..j] + data[j..k]
  {
  }

  lemma Slice(data: seq<Byte>, pos: nat, b: seq<Byte>, i: nat, j: nat)
    requires pos + |b| <= |data| && data[pos..pos + |b|] == b && i <= j <= |b|
    ensures data[pos + i..pos + j] == b[i..j]
  {
    assert forall k: nat | k < |b| :: b[k] == data[pos..pos + |b|][k] == data[pos + k];
  }

  lemma Parts(a: seq<Byte>, t: seq<Byte>, p: seq<Byte>, s: seq<Byte>, b: seq<Byte>)
    requires |a| == 4 && |t| == 4 && |s| == 4 && b == a + t + p + s
    ensures b[0..4] == a && b[4..8] == t && b[8..8 + |p|] == p && b[8 + |p|..12 + |p|] == s && b[4..8 + |p|] == t + p
  {
  }

  lemma NextComplete(crc: Crc, data: seq<Byte>, pos: nat, c: Chunk)
    requires Fits(c) && pos + 12 + |c.payload| <= |data| && data[pos..pos + 12 + |c.payload|] == Frame(crc, c)
    ensures Next(crc, data, pos) == Some((c, pos + 12 + |c.payload|))
  {
    hide Be32;
    hide Le32;
    hide FromBe32;
    hide FromLe32;
    hide KindOf;
    hide Code;
    var n, b, t := |c.payload|, Frame(crc, c), Le32(Code(c.kind));
    Be32Back(n);
    Le32Back(Code(c.kind));
    KindBack(c.kind);
    Be32Back(crc(t + c.payload));
    Parts(Be32(n), t, c.payload, Be32(crc(t + c.payload)), b);
    Slice(data, pos, b, 0, 4);
    Slice(data, pos, b, 4, 8);
    Slice(data, pos, b, 8, 8 + n);
    Slice(data, pos, b, 8 + n, 12 + n);
    Slice(data, pos, b, 4, 8 + n);
  }

  // ---- The rules ----

  /** chunk_counts after some chunks. */
  function Count(cs: seq<Chunk>, k: Kind): (n: nat) {
    if cs == [] then 0 else Count(cs[..|cs| - 1], k) + if cs[|cs| - 1].kind == k then 1 else 0
  }

  lemma {:induction false} Counted(cs: seq<Chunk>, k: Kind)
    ensures Count(cs, k) > 0 <==> exists i: nat | i < |cs| :: cs[i].kind == k
  {
    if cs != [] {
      Counted(cs[..|cs| - 1], k);
      assert forall i: nat | i < |cs| - 1 :: cs[..|cs| - 1][i] == cs[i];
    }
  }

  /** cHRM, gAMA, iCCP, sBIT, sRGB. */
  predicate ColourSpace(k: Kind) {
    k in {CHRM, GAMA, ICCP, SBIT, SRGB}
  }

  /** bKGD, hIST, tRNS. */
  predicate NeedsPalette(k: Kind) {
    k in {BKGD, HIST, TRNS}
  }

  /**
  png_chunk_order_allowed, given how many IHDR, IEND, PLTE and IDAT chunks were seen; should_plte_exist is
  never set, so a palette is never required.
  */
  predicate OrderAllowed(ihdr: nat, iend: nat, plte: nat, idat: nat, k: Kind) {
    && !(k != IHDR && ihdr == 0)
    && !(k == IEND && iend > 0)
    && !(k == PLTE && idat > 0)
    && !(ColourSpace(k) && (plte > 0 || idat > 0))
    && !(NeedsPalette(k) && idat > 0)
    && !(k == PHYS && idat > 0)
    && !(k == SPLT && idat > 0)
  }

  /** png_decoder_parse_ihdr and the restriction to eight-bit RGBA. */
  predicate HeaderOk(b: seq<Byte>) {
    |b| == 13 && b[8] == 8 && b[9] == 6 && b[10] == 0 && b[11] == 0 && b[12] <= 1
  }

  /** The pairs of bit depth and colour type that png_decoder_parse_ihdr knows. */
  predicate ColourValid(depth: Byte, colour: Byte) {
    || (colour == 0 && depth in {1, 2, 4, 8, 16}) || (colour == 3 && depth in {1, 2, 4, 8})
    || (colour in {2, 4, 6} && depth in {8, 16})
  }

  /** The errno that a header chunk leaves, 0 for none, as the numbers of png_error_types_t. */
  function HeaderError(b: seq<Byte>): (e: int)
    ensures e == 0 <==> HeaderOk(b)
    ensures -20 <= e <= 0
  {
    if |b| != 13 then -2
    else if !ColourValid(b[8], b[9]) then -3
    else if b[10] != 0 then -5
    else if b[11] != 0 then -4
    else if b[12] > 1 then -6
    else if b[9] != 6 || b[8] != 8 then -13
    else 0
  }

  /** The checks of png_decoder_parse_chunk on a chunk, after the chunks before it. */
  predicate Allowed(cs: seq<Chunk>, c: Chunk) {
    && Count(cs, IEND) == 0
    && (Count(cs, c.kind) > 0 ==> Multiple(c.kind))
    && OrderAllowed(Count(cs, IHDR), Count(cs, IEND), Count(cs, PLTE), Count(cs, IDAT), c.kind)
    && (c.kind == IHDR ==> HeaderOk(c.payload))
  }

  predicate AllAllowed(cs: seq<Chunk>) {
    cs == [] || (AllAllowed(cs[..|cs| - 1]) && Allowed(cs[..|cs| - 1], cs[|cs| - 1]))
  }

  /** Chunks that must not follow image data. */
  predicate BeforeData(k: Kind) {
    k in {PLTE, PHYS, SPLT} || ColourSpace(k) || NeedsPalette(k)
  }

  /** k may come after j. */
  predicate MayFollow(j: Kind, k: Kind) {
    && (j == k ==> Multiple(k)) && k != IHDR && j != IEND
    && (j == IDAT ==> !BeforeData(k)) && (j == PLTE ==> !ColourSpace(k))
  }

  /**
  The chunk sequences that pass, said without counting: the header first, and a good one; the end last;
  every pair of chunks in a permitted order.
  */
  ghost predicate Grammar(cs: seq<Chunk>) {
    && |cs| > 0 && cs[0].kind == IHDR && HeaderOk(cs[0].payload) && cs[|cs| - 1].kind == IEND
    && forall i: nat, j: nat | i < j < |cs| :: MayFollow(cs[i].kind, cs[j].kind)
  }

  /** The chunk checks, one at a time, amount to pairs in order after a good header. */
  ghost predicate Ordered(cs: seq<Chunk>) {
    && (|cs| > 0 ==> cs[0].kind == IHDR && HeaderOk(cs[0].payload))
    && forall i: nat, j: nat | i < j < |cs| :: MayFollow(cs[i].kind, cs[j].kind)
  }

  lemma AllowedIff(cs: seq<Chunk>, c: Chunk)
    requires Ordered(cs)
    ensures Allowed(cs, c) <==> Ordered(cs + [c])
  {
    var k, d := c.kind, cs + [c];
    Counted(cs, k);
    Counted(cs, IHDR);
    Counted(cs, IEND);
    Counted(cs, IDAT);
    Counted(cs, PLTE);
    hide Count;
    assert d[|cs|] == c && forall i: nat | i < |cs| :: d[i] == cs[i];
    if Allowed(cs, c) {
      forall i: nat | i < |cs| ensures MayFollow(cs[i].kind, k) {
      }
    }
  }

  lemma {:induction false} AllAllowedIff(cs: seq<Chunk>)
    ensures AllAllowed(cs) <==> Ordered(cs)
  {
    if cs != [] {
      var p := cs[..|cs| - 1];
      AllAllowedIff(p);
      assert cs == p + [cs[|cs| - 1]];
      if Ordered(cs) {
        assert forall i: nat | i < |p| :: p[i] == cs[i];
        assert Ordered(p);
      }
      if Ordered(p) {
        AllowedIff(p, cs[|cs| - 1]);
      }
    }
  }

  /** The rules with an end chunk seen, as the decoder checks them, are the grammar. */
  lemma GrammarIff(cs: seq<Chunk>)
    ensures AllAllowed(cs) && Count(cs, IEND) > 0 <==> Grammar(cs)
  {
    AllAllowedIff(cs);
    Counted(cs, IEND);
    hide Count;
    hide AllAllowed;
    if Ordered(cs) && Count(cs, IEND) > 0 {
      var i: nat :| i < |cs| && cs[i].kind == IEND;
      assert i < |cs| - 1 ==> MayFollow(cs[i].kind, cs[|cs| - 1].kind);
    }
  }

  /**
  What the grammar comes to, kind by kind: one header, first; one end, last; no palette, palette suggestion, pixel size,
  colour space, background, histogram or transparency after the first image data, no colour space after the palette; and
  all but image data, suggested palettes and text at most once.
  */
  lemma GrammarMeans(cs: seq<Chunk>, i: nat, j: nat)
    requires Grammar(cs) && i < j < |cs|
    ensures cs[j].kind != IHDR && cs[i].kind != IEND && cs[0].kind == IHDR && cs[|cs| - 1].kind == IEND
    ensures cs[i].kind == IDAT ==> cs[j].kind in {IDAT, TIME, ITXT, TEXT, ZTXT, IEND}
    ensures cs[i].kind == PLTE ==> cs[j].kind !in {CHRM, GAMA, ICCP, SBIT, SRGB}
    ensures cs[i].kind == cs[j].kind ==> cs[i].kind in {IDAT, SPLT, ITXT, TEXT, ZTXT}
  {
    assert MayFollow(cs[i].kind, cs[j].kind);
    assert i > 0 ==> MayFollow(cs[0].kind, cs[i].kind);
  }

  /** And a sequence of known kinds in such an order, after a good header, is of the grammar. */
  lemma GrammarOf(cs: seq<Chunk>)
    requires |cs| > 0 && cs[0].kind == IHDR && HeaderOk(cs[0].payload) && cs[|cs| - 1].kind == IEND
    requires forall i: nat, j: nat | i < j < |cs| ::
               && cs[j].kind != IHDR && cs[i].kind != IEND
               && (cs[i].kind == IDAT ==> cs[j].kind in {IDAT, TIME, ITXT, TEXT, ZTXT, IEND})
               && (cs[i].kind == PLTE ==> cs[j].kind !in {CHRM, GAMA, ICCP, SBIT, SRGB})
               && (cs[i].kind == cs[j].kind ==> cs[i].kind in {IDAT, SPLT, ITXT, TEXT, ZTXT})
    ensures Grammar(cs)
  {
  }

  // ---- Parsing a stream ----

  /** The chunks from a position to the end, after those of done, if all are in order and allowed. */
  function ParseFrom(crc: Crc, data: seq<Byte>, pos: nat, done: seq<Chunk>): (r: Option<seq<Chunk>>)
    requires pos <= |data|
    decreases |data| - pos
  {
    if pos == |data| then Some(done) else
    match Next(crc, data, pos)
    case None => None
    case Some((c, p)) => if Allowed(done, c) then ParseFrom(crc, data, p, done + [c]) else None
  }

  predicate AllFit(cs: seq<Chunk>) {
    forall c | c in cs :: Fits(c)
  }

  lemma OneMoreAllowed(cs: seq<Chunk>, c: Chunk)
    requires AllAllowed(cs) && Allowed(cs, c)
    ensures AllAllowed(cs + [c])
  {
    assert (cs + [c])[..|cs|] == cs;
  }

  lemma {:induction false} ParseSound(crc: Crc, data: seq<Byte>, pos: nat, done: seq<Chunk>) returns (rest: seq<Chunk>)
    requires pos <= |data| && AllAllowed(done) && ParseFrom(crc, data, pos, done).Some?
    ensures AllFit(rest) && ParseFrom(crc, data, pos, done) == Some(done + rest) && AllAllowed(done + rest)
    ensures data[pos..] == Stream(crc, rest)
    decreases |data| - pos
  {
    hide Next;
    hide Allowed;
    hide Frame;
    hide AllAllowed;
    if pos == |data| {
      rest := [];
      assert done + [] == done;
    } else {
      var (c, p) := Next(crc, data, pos).value;
      NextSound(crc, data, pos);
      OneMoreAllowed(done, c);
      var more := ParseSound(crc, data, p, done + [c]);
      rest := [c] + more;
      assert done + rest == done + [c] + more;
      assert Stream(crc, rest) == Frame(crc, c) + Stream(crc, more) by { assert rest[1..] == more; }
      Split(data, pos, p, |data|);
    }
  }

  lemma {:induction false} AllAllowedPrefix(cs: seq<Chunk>, i: nat)
    requires AllAllowed(cs) && i <= |cs|
    ensures AllAllowed(cs[..i]) && (i < |cs| ==> Allowed(cs[..i], cs[i]))
    decreases |cs|
  {
    hide Allowed;
    if i == |cs| {
      assert cs[..i] == cs;
    } else if i < |cs| - 1 {
      AllAllowedPrefix(cs[..|cs| - 1], i);
      assert cs[..|cs| - 1][..i] == cs[..i];
    }
  }

  lemma {:induction false} ParseComplete(crc: Crc, data: seq<Byte>, pos: nat, done: seq<Chunk>, rest: seq<Chunk>)
    requires pos <= |data| && AllFit(rest) && data[pos..] == Stream(crc, rest) && AllAllowed(done + rest)
    ensures ParseFrom(crc, data, pos, done) == Some(done + rest)
    decreases |rest|
  {
    hide Next;
    hide Allowed;
    hide Frame;
    hide AllAllowed;
    if rest == [] {
      assert done + [] == done;
    } else {
      var c := rest[0];
      var p := pos + 12 + |c.payload|;
      var b := Stream(crc, rest);
      assert b == Frame(crc, c) + Stream(crc, rest[1..]);
      assert data[pos..p] == data[pos..][..p - pos] == Frame(crc, c);
      assert data[p..] == data[pos..][p - pos..] == Stream(crc, rest[1..]);
      NextComplete(crc, data, pos, c);
      AllAllowedPrefix(done + rest, |done|);
      assert (done + rest)[..|done|] == done && (done + rest)[|done|] == c;
      assert done + [c] + rest[1..] == done + rest;
      ParseComplete(crc, data, p, done + [c], rest[1..]);
    }
  }

  /** PNG_SIGNATURE, as it lies in the file. */
  const SIGNATURE: seq<Byte> := [0x89, 0x50, 0x4E, 0x47, 0x0D, 0x0A, 0x1A, 0x0A]

  /** The chunks of a file the decoder accepts. */
  function Parse(crc: Crc, data: seq<Byte>): (r: Option<seq<Chunk>>) {
    if |data| < 8 || data[..8] != SIGNATURE then None else
    match ParseFrom(crc, data, 8, [])
    case None => None
    case Some(cs) => if Count(cs, IEND) == 0 then None else Some(cs)
  }

  /**
  The accepted files are exactly the signature followed by the frames of a chunk sequence of the grammar,
  and what is read is that sequence.
  */
  lemma ParseIff(crc: Crc, data: seq<Byte>, cs: seq<Chunk>)
    ensures Parse(crc, data) == Some(cs) <==> AllFit(cs) && data == SIGNATURE + Stream(crc, cs) && Grammar(cs)
  {
    hide ParseFrom;
    hide Stream;
    GrammarIff(cs);
    hide Grammar;
    hide Count;
    if Parse(crc, data) == Some(cs) {
      var rest := ParseSound(crc, data, 8, []);
      assert [] + rest == rest;
      assert data == data[..8] + data[8..];
    }
    if AllFit(cs) && data == SIGNATURE + Stream(crc, cs) && Grammar(cs) {
      assert data[8..] == Stream(crc, cs) && data[..8] == SIGNATURE;
      assert [] + cs == cs;
      ParseComplete(crc, data, 8, [], cs);
    }
  }

  // ---- Failures that leave errno alone ----

  /**
  An unknown chunk whose contents and checksum reach past the end: png_decoder_parse_chunk fails and sets no errno.
  The length is a 32-bit number, and so is its sum with 4.
  */
  predicate UnknownCut(tail: seq<Byte>) {
    && |tail| >= 12 && KindOf(FromLe32(tail[4..8])).None?
    && 8 + (FromBe32(tail[..4]) + 4) % 0x1_0000_0000 > |tail|
  }

  /**
  A chunk that the file ends within the checksum of. The checksum then reads as 0, and when it should be 0 the chunk
  passes.
  */
  predicate SumCut(crc: Crc, cs: seq<Chunk>, tail: seq<Byte>) {
    && |tail| >= 12 && KindOf(FromLe32(tail[4..8])).Some?
    && var k, n := KindOf(FromLe32(tail[4..8])).value, FromBe32(tail[..4]);
       8 + n <= |tail| < 12 + n && crc(tail[4..8 + n]) == 0 && Allowed(cs, Chunk(k, tail[8..8 + n]))
  }

  /** What follows some chunks makes the decoder stop without setting errno, at once or on the next chunk. */
  predicate Unreported(crc: Crc, cs: seq<Chunk>, tail: seq<Byte>) {
    && Count(cs, IEND) == 0
    && (UnknownCut(tail) || (SumCut(crc, cs, tail) && FromLe32(tail[4..8]) != Code(IEND)))
  }

  /** From a position on, after the chunks of done, the decoder stops so. */
  predicate UnreportedFrom(crc: Crc, data: seq<Byte>, pos: nat, done: seq<Chunk>)
    requires pos <= |data|
    decreases |data| - pos
  {
    match Next(crc, data, pos)
    case None => Unreported(crc, done, data[pos..])
    case Some((c, p)) => Allowed(done, c) && UnreportedFrom(crc, data, p, done + [c])
  }

  predicate UnreportedFile(crc: Crc, data: seq<Byte>) {
    |data| >= 8 && data[..8] == SIGNATURE && UnreportedFrom(crc, data, 8, [])
  }

  lemma NotNext(crc: Crc, data: seq<Byte>, pos: nat, cs: seq<Chunk>)
    requires pos <= |data| && Unreported(crc, cs, data[pos..])
    ensures Next(crc, data, pos).None?
  {
    var tail := data[pos..];
    assert tail[4..8] == data[pos + 4..pos + 8] && tail[..4] == data[pos..pos + 4];
  }

  lemma Assoc(a: seq<Byte>, b: seq<Byte>, c: seq<Byte>)
    ensures a + (b + c) == (a + b) + c
  {
  }

  lemma {:induction false} UnreportedSound(crc: Crc, data: seq<Byte>, pos: nat, done: seq<Chunk>)
    returns (rest: seq<Chunk>, tail: seq<Byte>)
    requires pos <= |data| && AllAllowed(done) && UnreportedFrom(crc, data, pos, done)
    ensures AllFit(rest) && AllAllowed(done + rest) && data[pos..] == Stream(crc, rest) + tail
    ensures Unreported(crc, done + rest, tail)
    decreases |data| - pos
  {
    hide Next;
    hide Allowed;
    hide Unreported;
    hide Frame;
    hide AllAllowed;
    if Next(crc, data, pos).None? {
      rest, tail := [], data[pos..];
      assert done + [] == done && Stream(crc, []) + tail == tail;
    } else {
      var (c, p) := Next(crc, data, pos).value;
      NextSound(crc, data, pos);
      OneMoreAllowed(done, c);
      var more;
      more, tail := UnreportedSound(crc, data, p, done + [c]);
      rest := [c] + more;
      assert done + rest == done + [c] + more;
      assert Stream(crc, rest) == Frame(crc, c) + Stream(crc, more) by { assert rest[1..] == more; }
      Split(data, pos, p, |data|);
      Assoc(Frame(crc, c), Stream(crc, more), tail);
    }
  }

  lemma {:induction false} UnreportedComplete(crc: Crc, data: seq<Byte>, pos: nat, done: seq<Chunk>, rest: seq<Chunk>,
                                              tail: seq<Byte>)
    requires pos <= |data| && AllFit(rest) && data[pos..] == Stream(crc, rest) + tail && AllAllowed(done + rest)
    requires Unreported(crc, done + rest, tail)
    ensures UnreportedFrom(crc, data, pos, done)
    decreases |rest|
  {
    hide Next;
    hide Allowed;
    hide Frame;
    hide AllAllowed;
    hide Unreported;
    if rest == [] {
      assert done + [] == done && data[pos..] == tail;
      NotNext(crc, data, pos, done);
    } else {
      var c := rest[0];
      var p := pos + 12 + |c.payload|;
      var b := Stream(crc, rest);
      assert b == Frame(crc, c) + Stream(crc, rest[1..]);
      assert data[pos..p] == data[pos..][..p - pos] == Frame(crc, c);
      assert data[p..] == data[pos..][p - pos..] == Stream(crc, rest[1..]) + tail;
      NextComplete(crc, data, pos, c);
      AllAllowedPrefix(done + rest, |done|);
      assert (done + rest)[..|done|] == done && (done + rest)[|done|] == c;
      assert done + [c] + rest[1..] == done + rest;
      UnreportedComplete(crc, data, p, done + [c], rest[1..], tail);
    }
  }

  /** A file that is the signature, the frames of an orderly chunk sequence without an end, and such a rest. */
  ghost predicate CutFile(crc: Crc, data: seq<Byte>, cs: seq<Chunk>, tail: seq<Byte>) {
    AllFit(cs) && Ordered(cs) && data == SIGNATURE + Stream(crc, cs) + tail && Unreported(crc, cs, tail)
  }

  /** The files at which the decoder stops without setting errno are exactly the cut ones. */
  lemma UnreportedIff(crc: Crc, data: seq<Byte>)
    ensures UnreportedFile(crc, data) <==> exists cs: seq<Chunk>, tail: seq<Byte> :: CutFile(crc, data, cs, tail)
  {
    hide UnreportedFrom;
    hide Stream;
    hide Unreported;
    hide Ordered;
    if UnreportedFile(crc, data) {
      var cs, tail := UnreportedSound(crc, data, 8, []);
      assert [] + cs == cs;
      AllAllowedIff(cs);
      assert data == data[..8] + data[8..];
      assert SIGNATURE + (Stream(crc, cs) + tail) == SIGNATURE + Stream(crc, cs) + tail;
      assert CutFile(crc, data, cs, tail);
    }
    if cs: seq<Chunk>, tail: seq<Byte> :| CutFile(crc, data, cs, tail) {
      AllAllowedIff(cs);
      assert data[..8] == SIGNATURE && data[8..] == Stream(crc, cs) + tail;
      assert [] + cs == cs;
      UnreportedComplete(crc, data, 8, [], cs, tail);
    }
  }

  /** None of them is accepted. */
  lemma {:induction false} UnreportedNotParsed(crc: Crc, data: seq<Byte>, pos: nat, done: seq<Chunk>)
    requires pos <= |data| && UnreportedFrom(crc, data, pos, done)
    ensures ParseFrom(crc, data, pos, done).None?
    decreases |data| - pos
  {
    hide Allowed;
    if Next(crc, data, pos).Some? {
      UnreportedNotParsed(crc, data, Next(crc, data, pos).value.1, done + [Next(crc, data, pos).value.0]);
    }
  }

  /** A chunk of type 0 that claims nearly four gigabytes. */
  const HUGE: seq<Byte> := [0xFF, 0xFF, 0, 0, 0, 0, 0, 0, 0, 0, 0, 0]

  lemma HugeCut()
    ensures UnknownCut(HUGE)
  {
    assert HUGE[4..8] == [0, 0, 0, 0] && HUGE[..4] == [0xFF, 0xFF, 0, 0];
  }

  /** A good header and then such a chunk: not accepted, and errno is not set. */
  lemma HugeUnknownChunk(crc: Crc, header: seq<Byte>)
    requires HeaderOk(header)
    ensures var data := SIGNATURE + Stream(crc, [Chunk(IHDR, header)]) + HUGE;
            UnreportedFile(crc, data) && Parse(crc, data) == None
  {
    hide UnknownCut;
    hide UnreportedFrom;
    hide ParseFrom;
    hide Stream;
    hide SumCut;
    var c := Chunk(IHDR, header);
    var data := SIGNATURE + Stream(crc, [c]) + HUGE;
    HugeCut();
    assert Count([c], IEND) == 0 by { assert [c][..0] == []; }
    assert CutFile(crc, data, [c], HUGE);
    UnreportedIff(crc, data);
    UnreportedNotParsed(crc, data, 8, []);
  }

  /** The image data of a sequence of chunks. */
  function ImageData(cs: seq<Chunk>): (b: seq<Byte>) {
    if cs == [] then [] else ImageData(cs[..|cs| - 1]) + if cs[|cs| - 1].kind == IDAT then cs[|cs| - 1].payload else []
  }
}

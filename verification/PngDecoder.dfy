/**
The chunk parser of the PNG decoder, reading a file in place. Failures set errno to minus the number of an error of
png_error_types_t, or leave it alone.
*/
module PngDecoder {
  import opened Options
  import opened Bytes
  import opened PngChunks

  /** The value of an int8_t that a number is cut down to. */
  function Int8(e: int): (r: int)
    ensures -128 <= r < 128 && (r == 0 <==> e % 256 == 0)
    ensures -128 <= e < 128 ==> r == e
  {
    (e + 128) % 256 - 128
  }

  /** One of the decoder's own error numbers; they stay what they are as an int8_t. */
  predicate Coded(e: int) {
    -20 <= e < 0
  }

  class Decoder {
    const crc: Crc
    const data: seq<Byte>
    var errno: int
    var pos: nat
    var counts: map<Kind, nat>        // chunk_counts
    var width: Word32
    var height: Word32
    var compressed: seq<Byte>         // what compressed_image_buffer holds
    var live: bool                    // it is there, and not destroyed
    ghost var done: seq<Chunk>

    constructor (crc: Crc, data: seq<Byte>, errno: int)
      ensures this.crc == crc && this.data == data && this.errno == errno
      ensures pos == 0 && done == [] && !live && Valid()
    {
      this.crc, this.data, this.errno := crc, data, errno;
      pos, counts, width, height, compressed, live, done := 0, map[], 0, 0, [], false, [];
    }

    function Seen(k: Kind): (n: nat)
      reads this`counts
    {
      if k in counts then counts[k] else 0
    }

    /** The fields say what the chunks so far hold. */
    ghost predicate Valid()
      reads this
    {
      && (forall k: Kind :: Seen(k) == Count(done, k))
      && compressed == ImageData(done) && AllAllowed(done)
      && HeaderRead(done, width, height) && (live <==> done != [])
    }

    /** png_decoder_init with png_decoder_is_png: a file of less than 8 bytes returns errno as it was. */
    method Init() returns (ret: int)
      requires pos == 0
      modifies this`pos, this`errno
      ensures ret == 0 <==> (|data| >= 8 && data[..8] == SIGNATURE) || (|data| < 8 && old(errno) % 256 == 0)
      ensures ret == 0 ==> errno == old(errno) && pos == if |data| >= 8 then 8 else 0
    {
      if |data| < 8 {
        return Int8(errno);
      }
      pos := 8;
      if data[..8] != SIGNATURE {
        errno := -19;
        return Int8(errno);
      }
      return 0;
    }

    /** buffer_read_uint32, which yields 0 when the buffer is too short. */
    function Bytes4(at: nat): (b: seq<Byte>)
      ensures |b| == 4 && (at + 4 <= |data| ==> b == data[at..at + 4]) && (at + 4 > |data| ==> b == [0, 0, 0, 0])
    {
      if at + 4 <= |data| then data[at..at + 4] else [0, 0, 0, 0]
    }

    /** The checks on a chunk's type, and its count. */
    method Admit(k: Kind) returns (ok: bool)
      requires Valid()
      modifies this`counts, this`errno
      ensures if ok then errno == old(errno) else Coded(errno)
      ensures ok <==> Count(done, IEND) == 0 && (Count(done, k) > 0 ==> Multiple(k))
                      && OrderAllowed(Count(done, IHDR), Count(done, IEND), Count(done, PLTE), Count(done, IDAT), k)
      ensures ok ==> forall j: Kind :: Seen(j) == Count(done, j) + if j == k then 1 else 0
    {
      hide Count;
      hide OrderAllowed;
      hide Multiple;
      hide AllAllowed;
      hide ImageData;
      hide HeaderRead;
      if Seen(IEND) > 0 || (Seen(k) > 0 && !Multiple(k)) {
        errno := if Seen(IEND) > 0 then -7 else -10;
        return false;
      }
      if !OrderAllowed(Seen(IHDR), Seen(IEND), Seen(PLTE), Seen(IDAT), k) {
        errno := -11;
        return false;
      }
      counts := counts[k := Seen(k) + 1];
      return true;
    }

    /** What png_decoder_parse_chunk does with the contents of a chunk whose checksum is right. */
    method Accept(c: Chunk) returns (ok: bool)
      requires forall j: Kind :: Seen(j) == Count(done, j) + if j == c.kind then 1 else 0
      requires compressed == ImageData(done) && AllAllowed(done)
      requires HeaderRead(done, width, height) && (live <==> done != [])
      requires c.kind == IHDR && HeaderOk(c.payload) ==> Allowed(done, c)
      requires c.kind != IHDR ==> Allowed(done, c)
      modifies this`width, this`height, this`compressed, this`live, this`done, this`errno
      ensures if ok then errno == old(errno) else Coded(errno)
      ensures ok <==> (c.kind == IHDR ==> HeaderOk(c.payload))
      ensures ok ==> Valid() && done == old(done) + [c]
    {
      hide Count;
      hide ImageData;
      hide AllAllowed;
      hide Allowed;
      hide FromBe32;
      hide HeaderRead;
      hide HeaderError;
      if c.kind == IHDR {
        var e := HeaderError(c.payload);
        if e != 0 {
          errno := e;
          return false;
        }
        HeaderFirst(done, c);
        live := true;
        width, height := FromBe32(c.payload[..4]), FromBe32(c.payload[4..8]);
        HeaderNow(c);
      } else {
        NotFirst(done, c);
        HeaderStays(done, c, width, height);
        if c.kind == IDAT {
          compressed := compressed + c.payload;
        }
      }
      OneMore(done, c);
      done := done + [c];
      return true;
    }

    /**
    The contents of a chunk and its checksum. A checksum that the file is too short for reads as 0, and
    leaves pos past the end.
    */
    method ReadBody(at: nat, n: nat, kind: Kind) returns (ok: bool, c: Chunk)
      requires at + 12 <= |data| && pos == at + 8
      modifies this`pos, this`errno
      ensures if ok then errno == old(errno) else Coded(errno)
      ensures c.kind == kind && (ok ==> pos == at + 12 + n <= |data| + 4 && c.payload == data[at + 8..at + 8 + n])
      ensures ok && pos > |data| <==> at + 8 + n <= |data| < at + 12 + n && crc(data[at + 4..at + 8 + n]) == 0
      ensures n == FromBe32(data[at..at + 4]) && KindOf(FromLe32(data[at + 4..at + 8])) == Some(kind) ==>
                Next(crc, data, at) == if ok && pos <= |data| then Some((c, pos)) else None
    {
      hide FromBe32;
      hide FromLe32;
      hide KindOf;
      Zeros();
      c := Chunk(kind, []);
      if pos + n > |data| {
        errno := -18;
        return false, c;
      }
      c := Chunk(kind, data[pos..pos + n]);
      pos := pos + n;
      var sum := FromBe32(Bytes4(pos));
      pos := pos + 4;
      ok := sum == crc(data[at + 4..at + 8 + n]);
      if !ok {
        errno := -12;
      }
    }

    /** What png_decoder_parse_chunk finds past the end: nothing is left to read, but buffer_remaining wraps. */
    predicate Past()
      reads this
    {
      pos > |data|
    }

    /**
    png_decoder_parse_chunk. It takes a chunk exactly when the chunk is framed right and allowed, or runs past the
    end within the checksum; it fails without setting errno exactly on an unknown chunk that is cut, and past the end
    when no end chunk was seen.
    */
    method ParseChunk() returns (ok: bool)
      requires Past() || Valid()
      modifies this
      ensures ok ==> errno == old(errno)
      ensures old(Past()) ==> !ok && if old(Seen(IEND)) > 0 then Coded(errno) else errno == old(errno)
      ensures !old(Past()) ==> Took(old(pos), old(done), ok) && Left(old(pos), old(done), ok, old(errno))
    {
      hide Allowed;
      hide OrderAllowed;
      hide Count;
      hide KindOf;
      hide FromBe32;
      hide FromLe32;
      hide HeaderOk;
      hide AllAllowed;
      hide ImageData;
      hide HeaderRead;
      hide UnknownCut;
      hide SumCut;
      hide Next;
      if Seen(IEND) > 0 {
        if pos <= |data| {
          EndIsLast(done);
          EndCuts(crc, done, data[pos..]);
        }
        errno := -7;
        return false;
      }
      if pos <= |data| && |data| - pos < 12 {
        ShortTail(crc, done, data, pos);
        errno := -2;
        return false;
      }
      var at := pos;
      var n: nat, kind := FromBe32(Bytes4(at)), KindOf(FromLe32(Bytes4(at + 4)));
      if at <= |data| {
        CutParts(crc, done, data, at);
      } else {
        Zeros();
      }
      pos := pos + 8;
      if kind.None? {
        if pos + (n + 4) % 0x1_0000_0000 <= |data| {
          errno := -9;
        }
        return false;
      }
      ok := ParseKnown(at, n, kind.value);
    }

    /** The part of png_decoder_parse_chunk for a chunk of a known type. */
    method ParseKnown(at: nat, n: nat, kind: Kind) returns (ok: bool)
      requires Valid() && at + 12 <= |data| && pos == at + 8
      requires n == FromBe32(data[at..at + 4]) && KindOf(FromLe32(data[at + 4..at + 8])) == Some(kind)
      modifies this
      ensures ok ==> errno == old(errno)
      ensures Took(at, old(done), ok) && Left(at, old(done), ok, old(errno))
    {
      hide Allowed;
      hide OrderAllowed;
      hide Count;
      hide KindOf;
      hide FromBe32;
      hide FromLe32;
      hide HeaderOk;
      hide AllAllowed;
      hide ImageData;
      hide HeaderRead;
      hide UnknownCut;
      hide SumCut;
      assert Next(crc, data, at).Some? ==> Next(crc, data, at).value.0.kind == kind;
      hide Next;
      AllowedParts(done, kind);
      CutParts(crc, done, data, at);
      ok := Admit(kind);
      if !ok {
        return false;
      }
      var c;
      ok, c := ReadBody(at, n, kind);
      if ok {
        ok := Accept(c);
      }
    }

    /** The chunk at a position was taken, or there is none to take. */
    ghost predicate Took(at: nat, before: seq<Chunk>, ok: bool)
      requires at <= |data|
      reads this
    {
      var r := Next(crc, data, at);
      if ok && !Past() then
        Valid() && r.Some? && pos == r.value.1 && Allowed(before, r.value.0) && done == before + [r.value.0]
      else r.None? || !Allowed(before, r.value.0)
    }

    /** How errno and the position are left. */
    ghost predicate Left(at: nat, before: seq<Chunk>, ok: bool, errno0: int)
      requires at <= |data|
      reads this
    {
      var tail := data[at..];
      && (!ok ==> if Count(before, IEND) == 0 && UnknownCut(tail) then errno == errno0 else Coded(errno))
      && (ok && Past() <==> SumCut(crc, before, tail))
      && (ok && Past() ==> Seen(IEND) == if FromLe32(tail[4..8]) == Code(IEND) then 1 else 0)
    }

    /**
    png_decoder_parse_chunks: it returns 0 exactly for a file whose chunks parse, with an end among them, and, when
    the low byte of errno is 0 on entry, for a file at which the decoder stops without setting it. In the second case
    the compressed data is gone.
    */
    method ParseChunks() returns (ret: int)
      requires Valid() && pos <= |data| && done == []
      modifies this
      ensures var r := ParseFrom(crc, data, old(pos), []);
              var good := r.Some? && Count(r.value, IEND) > 0;
              && (ret == 0 <==> good || (old(errno) % 256 == 0 && UnreportedFrom(crc, data, old(pos), [])))
              && (good ==> Valid() && r.value == done) && (live <==> good)
    {
      hide Next;
      hide Allowed;
      hide Unreported;
      hide Int8;
      ghost var start := pos;
      while pos != |data|
        invariant errno == old(errno)
        invariant if pos <= |data| then
                    && Valid() && ParseFrom(crc, data, pos, done) == ParseFrom(crc, data, start, [])
                    && (UnreportedFrom(crc, data, pos, done) <==> UnreportedFrom(crc, data, start, []))
                  else
                    ParseFrom(crc, data, start, []).None? && (UnreportedFrom(crc, data, start, []) <==> Seen(IEND) == 0)
        decreases if pos <= |data| then |data| - pos + 1 else 0
      {
        ghost var at, before := pos, done;
        var ok := ParseChunk();
        if at <= |data| {
          Stopped(at, before, ok, old(errno));
        }
        if !ok {
          live := false;
          return Int8(errno);
        }
      }
      NothingLeft(crc, data, done);
      if Seen(IEND) == 0 {
        live := false;
        errno := -8;
        return errno;
      }
      return 0;
    }

    /** What one step of the loop says about the rest. */
    lemma Stopped(at: nat, before: seq<Chunk>, ok: bool, errno0: int)
      requires at < |data| && Took(at, before, ok) && Left(at, before, ok, errno0)
      ensures ok && !Past() ==>
                && ParseFrom(crc, data, pos, done) == ParseFrom(crc, data, at, before)
                && (UnreportedFrom(crc, data, pos, done) <==> UnreportedFrom(crc, data, at, before))
      ensures !(ok && !Past()) ==> ParseFrom(crc, data, at, before).None?
      ensures ok && Past() ==> (UnreportedFrom(crc, data, at, before) <==> Seen(IEND) == 0)
      ensures !ok ==> if UnreportedFrom(crc, data, at, before) then errno == errno0 else Coded(errno)
    {
      hide Valid;
    }
  }

  /** No chunk has type 0. */
  lemma Zeros()
    ensures FromBe32([0, 0, 0, 0]) == 0 && KindOf(FromLe32([0, 0, 0, 0])).None?
  {
    ZeroNumber();
    hide FromBe32;
    hide FromLe32;
  }

  lemma ZeroNumber()
    ensures FromBe32([0, 0, 0, 0]) == 0 && FromLe32([0, 0, 0, 0]) == 0
  {
  }

  lemma ShortTail(crc: Crc, cs: seq<Chunk>, data: seq<Byte>, at: nat)
    requires at <= |data| < at + 12
    ensures Next(crc, data, at).None? && !UnknownCut(data[at..]) && !SumCut(crc, cs, data[at..])
  {
  }

  lemma EndCuts(crc: Crc, cs: seq<Chunk>, tail: seq<Byte>)
    requires Count(cs, IEND) > 0
    ensures !SumCut(crc, cs, tail)
  {
  }

  lemma NothingLeft(crc: Crc, data: seq<Byte>, cs: seq<Chunk>)
    ensures !UnreportedFrom(crc, data, |data|, cs)
  {
  }

  /** The two ways to be cut, on the bytes of the file. */
  lemma CutParts(crc: Crc, cs: seq<Chunk>, data: seq<Byte>, at: nat)
    requires at + 12 <= |data|
    ensures data[at..][4..8] == data[at + 4..at + 8]
    ensures var n, kind := FromBe32(data[at..at + 4]), KindOf(FromLe32(data[at + 4..at + 8]));
            && (UnknownCut(data[at..]) <==> kind.None? && at + 8 + (n + 4) % 0x1_0000_0000 > |data|)
            && (SumCut(crc, cs, data[at..]) <==>
                && kind.Some? && at + 8 + n <= |data| < at + 12 + n && crc(data[at + 4..at + 8 + n]) == 0
                && Allowed(cs, Chunk(kind.value, data[at + 8..at + 8 + n])))
            && (FromLe32(data[at + 4..at + 8]) == Code(IEND) <==> kind == Some(IEND))
            && (kind.None? ==> Next(crc, data, at).None?)
  {
    hide Allowed;
    hide FromBe32;
    hide FromLe32;
    var tail, n := data[at..], FromBe32(data[at..at + 4]);
    KindBack(IEND);
    hide KindOf;
    assert tail[..4] == data[at..at + 4];
    if at + 8 + n <= |data| {
      assert tail[4..8 + n] == data[at + 4..at + 8 + n] && tail[8..8 + n] == data[at + 8..at + 8 + n];
    }
  }

  /** The size is that of the header, once there is one. */
  ghost predicate HeaderRead(cs: seq<Chunk>, w: Word32, h: Word32) {
    cs == [] || (|cs[0].payload| == 13 && w == FromBe32(cs[0].payload[..4]) && h == FromBe32(cs[0].payload[4..8]))
  }

  lemma HeaderNow(c: Chunk)
    requires HeaderOk(c.payload)
    ensures HeaderRead([] + [c], FromBe32(c.payload[..4]), FromBe32(c.payload[4..8]))
  {
  }

  lemma HeaderStays(cs: seq<Chunk>, c: Chunk, w: Word32, h: Word32)
    requires cs != [] && HeaderRead(cs, w, h)
    ensures HeaderRead(cs + [c], w, h)
  {
  }

  lemma OneMore(cs: seq<Chunk>, c: Chunk)
    ensures forall k: Kind :: Count(cs + [c], k) == Count(cs, k) + if k == c.kind then 1 else 0
    ensures ImageData(cs + [c]) == ImageData(cs) + if c.kind == IDAT then c.payload else []
    ensures AllAllowed(cs) && Allowed(cs, c) ==> AllAllowed(cs + [c])
  {
    hide Allowed;
    assert (cs + [c])[..|cs|] == cs;
  }

  lemma EndIsLast(cs: seq<Chunk>)
    requires Count(cs, IEND) > 0
    ensures forall c :: !Allowed(cs, c)
  {
  }

  lemma AllowedParts(cs: seq<Chunk>, k: Kind)
    ensures forall c: Chunk | c.kind == k ::
              Allowed(cs, c) <==>
              && Count(cs, IEND) == 0 && (Count(cs, k) > 0 ==> Multiple(k))
              && OrderAllowed(Count(cs, IHDR), Count(cs, IEND), Count(cs, PLTE), Count(cs, IDAT), k)
              && (k == IHDR ==> HeaderOk(c.payload))
  {
  }

  /** A header is allowed only as the first chunk, and only a header is. */
  lemma HeaderFirst(cs: seq<Chunk>, c: Chunk)
    requires AllAllowed(cs) && Allowed(cs, c) && c.kind == IHDR
    ensures cs == []
  {
  }

  lemma NotFirst(cs: seq<Chunk>, c: Chunk)
    requires Allowed(cs, c) && c.kind != IHDR
    ensures cs != []
  {
  }
}

/**
The 64-bit words a 4 KiB frame is made of, split into the bit fields that the two page-table
formats use. A frame that holds data is made of the same words.
*/
module Words {
  const FRAME_BYTES: nat := 4096

  /**
  One word: bits 0, 1, 2 (read, write and execute of an EPT entry; present, writable and user of a
  guest entry), 3-6 (memory type and ignore-PAT of an EPT leaf), 7 (large page), 8-9, 10 (user-mode
  execute), 11, 12-51 (page number), 52-62 and 63 (no-execute of a guest entry).
  */
  datatype Bits = Bits(r: bool, w: bool, x: bool, kind: nat, big: bool, ad: nat, ux: bool, ign: bool,
                       addr: nat, high: nat, nx: bool)

  predicate Fits(b: Bits) {
    b.kind < 0x10 && b.ad < 4 && b.addr < 0x100_0000_0000 && b.high < 0x800
  }

  const ZERO_BITS := Bits(false, false, false, 0, false, 0, false, false, 0, 0, false)
  type Word = b: Bits | Fits(b) witness ZERO_BITS
  const ZERO: Word := ZERO_BITS

  type Frame = s: seq<Word> | |s| == 512 witness seq(512, _ => ZERO)

  function ZeroFrame(): (f: Frame)
    ensures forall j: nat | j < 512 :: f[j] == ZERO
  {
    seq(512, _ => ZERO)
  }

  function Bit(b: bool): (n: nat) {
    if b then 1 else 0
  }

  /** Bits 0 to 7 of a word. */
  function LowByte(w: Word): (n: nat) {
    Bit(w.r) + 2 * (Bit(w.w) + 2 * (Bit(w.x) + 2 * (w.kind + 0x10 * Bit(w.big))))
  }

  /** Bits 8 to 63. */
  function HighBytes(w: Word): (n: nat) {
    w.ad + 4 * (Bit(w.ux) + 2 * (Bit(w.ign) + 2 * (w.addr + 0x100_0000_0000 * (w.high + 0x800 * Bit(w.nx)))))
  }

  /** The 64-bit number a word stands for, its fields where the processor looks for them. */
  function Value(w: Word): (n: nat)
    ensures n < 0x1_0000_0000_0000_0000
    ensures n == Bit(w.r) + 2 * Bit(w.w) + 4 * Bit(w.x) + 8 * w.kind + 0x80 * Bit(w.big) + 0x100 * w.ad
                 + 0x400 * Bit(w.ux) + 0x800 * Bit(w.ign) + 0x1000 * w.addr
                 + 0x10_0000_0000_0000 * w.high + 0x8000_0000_0000_0000 * Bit(w.nx)
  {
    assert LowByte(w) < 0x100 && HighBytes(w) < 0x100_0000_0000_0000;
    LowByte(w) + 0x100 * HighBytes(w)
  }

  /** A digit and the number above it. */
  function Digit(n: nat, b: nat): (d: nat)
    requires b > 0
    ensures d < b && n == d + b * Above(n, b)
  {
    n % b
  }

  function Above(n: nat, b: nat): (m: nat)
    requires b > 0
  {
    n / b
  }

  predicate Odd(n: nat)
    ensures Digit(n, 2) == Bit(Odd(n))
  {
    Digit(n, 2) == 1
  }

  /** The word a 64-bit number stands for. */
  function FromValue(n: nat): (w: Word)
    requires n < 0x1_0000_0000_0000_0000
    ensures Value(w) == n
  {
    var n3 := Above(Above(Above(n, 2), 2), 2);
    var n4 := Above(n3, 0x10);
    var n5 := Above(n4, 2);
    var n8 := Above(Above(Above(n5, 4), 2), 2);
    var n9 := Above(n8, 0x100_0000_0000);
    var w := Bits(Odd(n), Odd(Above(n, 2)), Odd(Above(Above(n, 2), 2)), Digit(n3, 0x10), Odd(n4),
                  Digit(n5, 4), Odd(Above(n5, 4)), Odd(Above(Above(n5, 4), 2)),
                  Digit(n8, 0x100_0000_0000), Digit(n9, 0x800), Odd(Above(n9, 0x800)));
    assert n == LowByte(w) + 0x100 * n5 by {
      assert n == Bit(Odd(n)) + 2 * (Bit(Odd(Above(n, 2))) + 2 * (Bit(Odd(Above(Above(n, 2), 2))) + 2 * n3));
      assert n3 == Digit(n3, 0x10) + 0x10 * (Bit(Odd(n4)) + 2 * n5);
    }
    assert n5 == HighBytes(w) by {
      assert n5 == w.ad + 4 * (Bit(w.ux) + 2 * (Bit(w.ign) + 2 * n8));
      assert n8 == w.addr + 0x100_0000_0000 * n9;
      assert n9 == w.high + 0x800 * Bit(w.nx) by {
        assert n9 < 0x1000;
        assert Above(n9, 0x800) < 2;
        assert Above(Above(n9, 0x800), 2) == 0;
      }
    }
    w
  }

  /** Byte k of the little-endian image of a number. */
  function ByteOf(n: nat, k: nat): (b: nat) {
    if k == 0 then n % 256 else ByteOf(n / 256, k - 1)
  }

  /** The first n bytes of a, then those of b. */
  function Splice(a: nat, b: nat, n: nat): (c: nat) {
    if n == 0 then b else a % 256 + 256 * Splice(a / 256, b / 256, n - 1)
  }

  lemma {:induction false} SpliceBytes(a: nat, b: nat, n: nat, k: nat)
    ensures ByteOf(Splice(a, b, n), k) == ByteOf(if k < n then a else b, k)
  {
    if n > 0 && k > 0 {
      SpliceBytes(a / 256, b / 256, n - 1, k - 1);
    }
  }

  function ByteUnit(k: nat): (n: nat) {
    if k == 0 then 1 else 256 * ByteUnit(k - 1)
  }

  lemma {:induction false} SpliceBound(a: nat, b: nat, n: nat, m: nat)
    requires n <= m && a < ByteUnit(m) && b < ByteUnit(m)
    ensures Splice(a, b, n) < ByteUnit(m)
  {
    if n > 0 {
      SpliceBound(a / 256, b / 256, n - 1, m - 1);
    }
  }

  /** The word made of the first n bytes of one word and the rest of another. */
  function SpliceWord(a: Word, b: Word, n: nat): (c: Word)
    requires n <= 8
    ensures Value(c) == Splice(Value(a), Value(b), n)
  {
    assert ByteUnit(8) == 0x1_0000_0000_0000_0000;
    SpliceBound(Value(a), Value(b), n, 8);
    FromValue(Splice(Value(a), Value(b), n))
  }

  /** A byte of a frame. */
  function FrameByte(f: Frame, o: nat): (b: nat)
    requires o < FRAME_BYTES
  {
    ByteOf(Value(f[o / 8]), o % 8)
  }

  /** A frame with its first n bytes copied from another. */
  function CopyFrame(src: Frame, dst: Frame, n: nat): (f: Frame)
    requires n <= FRAME_BYTES
  {
    seq(512, j requires 0 <= j < 512 =>
      if 8 * j + 8 <= n then src[j] else if n <= 8 * j then dst[j] else SpliceWord(src[j], dst[j], n - 8 * j))
  }

  lemma CopyFrameBytes(src: Frame, dst: Frame, n: nat, o: nat)
    requires n <= FRAME_BYTES && o < FRAME_BYTES
    ensures FrameByte(CopyFrame(src, dst, n), o) == FrameByte(if o < n then src else dst, o)
  {
    hide Value;
    hide ByteOf;
    hide Splice;
    if 8 * (o / 8) < n < 8 * (o / 8) + 8 {
      SpliceBytes(Value(src[o / 8]), Value(dst[o / 8]), n - 8 * (o / 8), o % 8);
    }
  }
}

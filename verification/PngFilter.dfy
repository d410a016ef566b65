/**
The scanline filters of the PNG coder and decoder. An image is its bytes in row order, four to a pixel;
row y of an image with n bytes to a row holds bytes y * n to y * n + n - 1.
*/
module PngFilter {
  import opened Bytes

  const BPP: nat := 4

  /** png_filter_type_t; png_get_filter_func falls back to the first, no filter, for any other number. */
  datatype Filter = Plain | Sub | Up | Average | Paeth

  function FilterOf(n: nat): (f: Filter) {
    if n == 1 then Sub else if n == 2 then Up else if n == 3 then Average else if n == 4 then Paeth else Plain
  }

  function Number(f: Filter): (n: Byte)
    ensures FilterOf(n) == f && n < 5
  {
    match f
    case Plain => 0
    case Sub => 1
    case Up => 2
    case Average => 3
    case Paeth => 4
  }

  function Abs(i: int): (n: nat) {
    if i < 0 then -i else i
  }

  function Wrap(i: int): (b: Byte) {
    i % 256
  }

  /** png_paeth_predictor. */
  function PaethOf(a: Byte, b: Byte, c: Byte): (p: Byte) {
    var p := a + b - c;
    if Abs(p - a) <= Abs(p - b) && Abs(p - a) <= Abs(p - c) then a
    else if Abs(p - b) <= Abs(p - c) then b
    else c
  }

  predicate Nearer(p: int, q: int, t: int) {
    Abs(t - p) <= Abs(t - q)
  }

  /** Row y starts after y rows of n bytes. */
  function Base(n: nat, y: nat): (k: nat) {
    if y == 0 then 0 else Base(n, y - 1) + n
  }

  lemma {:induction false} BaseGrows(n: nat, y: nat, h: nat)
    requires y <= h
    ensures Base(n, y) <= Base(n, h) && (y < h ==> Base(n, y) + n <= Base(n, h))
  {
    if y < h {
      BaseGrows(n, y, h - 1);
    }
  }

  /** Byte x of row y is byte k of the image. */
  predicate Place(s: seq<Byte>, n: nat, y: nat, x: nat, k: nat) {
    x <= k <= |s| && (y > 0 ==> n + x <= k)
  }

  /** The neighbours of a byte: the same channel to the left, above, and above left, or 0 at the edges. */
  function Left(s: seq<Byte>, n: nat, y: nat, x: nat, k: nat): (b: Byte)
    requires Place(s, n, y, x, k)
  {
    if x >= BPP then s[k - BPP] else 0
  }

  function Above(s: seq<Byte>, n: nat, y: nat, x: nat, k: nat): (b: Byte)
    requires Place(s, n, y, x, k) && n > 0
  {
    if y > 0 then s[k - n] else 0
  }

  function AboveLeft(s: seq<Byte>, n: nat, y: nat, x: nat, k: nat): (b: Byte)
    requires Place(s, n, y, x, k)
  {
    if y > 0 && x >= BPP then s[k - n - BPP] else 0
  }

  /** png_filter_none, _sub, _up, _average and _paeth. */
  function Predict(f: Filter, s: seq<Byte>, n: nat, y: nat, x: nat, k: nat): (b: Byte)
    requires Place(s, n, y, x, k) && n > 0
  {
    match f
    case Plain => 0
    case Sub => Left(s, n, y, x, k)
    case Up => Above(s, n, y, x, k)
    case Average => (Left(s, n, y, x, k) + Above(s, n, y, x, k)) / 2
    case Paeth => PaethOf(Left(s, n, y, x, k), Above(s, n, y, x, k), AboveLeft(s, n, y, x, k))
  }

  /** Only earlier bytes matter, so the decoder predicts what the encoder predicted. */
  lemma PredictPrefix(f: Filter, s: seq<Byte>, s': seq<Byte>, n: nat, y: nat, x: nat, k: nat)
    requires Place(s, n, y, x, k) && Place(s', n, y, x, k) && n > 0 && s[..k] == s'[..k]
    ensures Predict(f, s, n, y, x, k) == Predict(f, s', n, y, x, k)
  {
  }

  // ---- Filtering ----

  predicate RowIn(s: seq<Byte>, n: nat, y: nat) {
    0 < n && Base(n, y) + n <= |s|
  }

  lemma {:induction false} RowPlace(s: seq<Byte>, n: nat, y: nat, x: nat)
    requires RowIn(s, n, y) && x < n
    ensures Place(s, n, y, x, Base(n, y) + x)
  {
  }

  function Residual(f: Filter, s: seq<Byte>, n: nat, y: nat, x: nat): (d: int)
    requires RowIn(s, n, y) && x < n
  {
    RowPlace(s, n, y, x);
    s[Base(n, y) + x] - Predict(f, s, n, y, x, Base(n, y) + x)
  }

  /** The first x bytes of row y under a filter. */
  function FilterRow(f: Filter, s: seq<Byte>, n: nat, y: nat, x: nat): (r: seq<Byte>)
    requires RowIn(s, n, y) && x <= n
    ensures |r| == x
  {
    if x == 0 then [] else FilterRow(f, s, n, y, x - 1) + [Wrap(Residual(f, s, n, y, x - 1))]
  }

  /** The sum of absolute residuals over the first x bytes of a row. */
  function Cost(f: Filter, s: seq<Byte>, n: nat, y: nat, x: nat): (c: nat)
    requires RowIn(s, n, y) && x <= n
  {
    if x == 0 then 0 else Cost(f, s, n, y, x - 1) + Abs(Residual(f, s, n, y, x - 1))
  }

  /** The first y rows, each after the number of its filter. */
  function Filtered(fs: seq<Filter>, s: seq<Byte>, n: nat, y: nat): (r: seq<Byte>)
    requires n > 0 && y <= |fs| && Base(n, y) <= |s|
    ensures |r| == Base(n + 1, y)
  {
    if y == 0 then [] else Filtered(fs, s, n, y - 1) + [Number(fs[y - 1])] + FilterRow(fs[y - 1], s, n, y - 1, n)
  }

  // ---- Defiltering ----

  /** The first x bytes of row y, from the filtered bytes r of the row and the rows s before it. */
  function UnfilterRow(f: Filter, r: seq<Byte>, s: seq<Byte>, n: nat, y: nat, x: nat): (d: seq<Byte>)
    requires 0 < n && x <= |r| && (y > 0 ==> n <= |s|)
    ensures |d| == x
  {
    if x == 0 then [] else
    var d := UnfilterRow(f, r, s, n, y, x - 1);
    d + [Wrap(r[x - 1] + Predict(f, s + d, n, y, x - 1, |s| + x - 1))]
  }

  /** The first y rows. */
  function Unfiltered(r: seq<Byte>, n: nat, y: nat): (s: seq<Byte>)
    requires n > 0 && Base(n + 1, y) <= |r|
    ensures |s| == Base(n, y)
  {
    if y == 0 then [] else
    var k := Base(n + 1, y - 1);
    var s := Unfiltered(r, n, y - 1);
    BaseGrows(n, 0, y - 1);
    s + UnfilterRow(FilterOf(r[k]), r[k + 1..k + 1 + n], s, n, y - 1, n)
  }

  // ---- Defiltering undoes filtering ----

  lemma WrapBack(a: Byte, b: Byte)
    ensures Wrap(Wrap(a - b) + b) == a
  {
  }

  /** One byte of a row, given that the bytes before it are already right. */
  lemma ByteUndone(f: Filter, s: seq<Byte>, n: nat, y: nat, x: nat)
    requires RowIn(s, n, y) && x < n
    ensures Place(s[..Base(n, y) + x], n, y, x, Base(n, y) + x)
    ensures var k := Base(n, y) + x;
            Wrap(FilterRow(f, s, n, y, n)[x] + Predict(f, s[..k], n, y, x, k)) == s[k]
  {
    hide Predict;
    hide FilterRow;
    hide Wrap;
    var k := Base(n, y) + x;
    RowPlace(s, n, y, x);
    FilterRowAt(f, s, n, y, n, x);
    hide Base;
    PredictPrefix(f, s[..k], s, n, y, x, k);
    WrapBack(s[k], Predict(f, s, n, y, x, k));
  }

  lemma UnfilterStep(f: Filter, r: seq<Byte>, s: seq<Byte>, n: nat, y: nat, x: nat, t: seq<Byte>)
    requires 0 < n && x < |r| && (y > 0 ==> n <= |s|) && t == s + UnfilterRow(f, r, s, n, y, x)
    ensures s + UnfilterRow(f, r, s, n, y, x + 1) == t + [Wrap(r[x] + Predict(f, t, n, y, x, |s| + x))]
  {
  }

  lemma {:induction false} RowUndone(f: Filter, s: seq<Byte>, n: nat, y: nat, x: nat)
    requires RowIn(s, n, y) && x <= n
    ensures y > 0 ==> n <= Base(n, y)
    ensures s[..Base(n, y)] + UnfilterRow(f, FilterRow(f, s, n, y, n), s[..Base(n, y)], n, y, x) == s[..Base(n, y) + x]
  {
    hide Base;
    hide Predict;
    hide FilterRow;
    hide UnfilterRow;
    hide Wrap;
    hide RowIn;
    hide Place;
    RowBounds(s, n, y);
    var k, r := Base(n, y), FilterRow(f, s, n, y, n);
    if x == 0 {
      NoBytes(f, r, s[..k], n, y);
    } else {
      RowUndone(f, s, n, y, x - 1);
      ByteUndone(f, s, n, y, x - 1);
      NextUndone(f, r, s[..k], n, y, x - 1, s, k);
    }
  }

  lemma RowBounds(s: seq<Byte>, n: nat, y: nat)
    requires RowIn(s, n, y)
    ensures 0 < n && Base(n, y) + n <= |s| && (y > 0 ==> n <= Base(n, y))
  {
  }

  lemma NextUndone(f: Filter, r: seq<Byte>, before: seq<Byte>, n: nat, y: nat, x: nat, s: seq<Byte>, k: nat)
    requires 0 < n && x < |r| && (y > 0 ==> n <= |before|) && |before| == k && k + x < |s|
    requires before + UnfilterRow(f, r, before, n, y, x) == s[..k + x]
    requires Place(s[..k + x], n, y, x, k + x) && Wrap(r[x] + Predict(f, s[..k + x], n, y, x, k + x)) == s[k + x]
    ensures before + UnfilterRow(f, r, before, n, y, x + 1) == s[..k + (x + 1)]
  {
    hide UnfilterRow;
    hide Predict;
    hide Wrap;
    UnfilterStep(f, r, before, n, y, x, s[..k + x]);
  }

  lemma NoBytes(f: Filter, r: seq<Byte>, s: seq<Byte>, n: nat, y: nat)
    requires 0 < n && (y > 0 ==> n <= |s|)
    ensures s + UnfilterRow(f, r, s, n, y, 0) == s
  {
  }

  lemma {:induction false} FilterRowAt(f: Filter, s: seq<Byte>, n: nat, y: nat, x: nat, j: nat)
    requires RowIn(s, n, y) && j < x <= n
    ensures FilterRow(f, s, n, y, x)[j] == Wrap(Residual(f, s, n, y, j))
  {
    if j < x - 1 {
      FilterRowAt(f, s, n, y, x - 1, j);
    }
  }

  /** Where row y lies, in the image and in its filtered form, and what it adds. */
  lemma RowStep(r: seq<Byte>, n: nat, y: nat, h: nat)
    requires n > 0 && y < h && Base(n + 1, h) <= |r|
    ensures Base(n + 1, y + 1) == Base(n + 1, y) + 1 + n <= |r|
    ensures Base(n, y + 1) == Base(n, y) + n <= Base(n, h) && (y > 0 ==> n <= Base(n, y))
    ensures var s, k := Unfiltered(r, n, y), Base(n + 1, y);
            Unfiltered(r, n, y + 1) == s + UnfilterRow(FilterOf(r[k]), r[k + 1..k + 1 + n], s, n, y, n)
  {
    hide UnfilterRow;
    BaseGrows(n + 1, y + 1, h);
    BaseGrows(n, y + 1, h);
  }

  /** Whatever filter each row has, defiltering gives back the image. */
  lemma {:induction false} Undone(fs: seq<Filter>, s: seq<Byte>, n: nat, h: nat, y: nat)
    requires n > 0 && y <= h <= |fs| && Base(n, h) <= |s|
    ensures Base(n + 1, y) <= Base(n + 1, h) && Base(n, y) <= Base(n, h)
    ensures Unfiltered(Filtered(fs, s, n, h), n, y) == s[..Base(n, y)]
  {
    hide Base;
    hide Filtered;
    hide Unfiltered;
    hide FilterRow;
    hide UnfilterRow;
    hide FilterOf;
    hide Number;
    hide RowIn;
    BaseGrows(n + 1, y, h);
    BaseGrows(n, y, h);
    var r := Filtered(fs, s, n, h);
    if y == 0 {
      NoRows(r, n);
    } else {
      RowStep(r, n, y - 1, h);
      FilteredRow(fs, s, n, h, y - 1);
      RowUndone(fs[y - 1], s, n, y - 1, n);
      Undone(fs, s, n, h, y - 1);
    }
  }

  lemma NoRows(r: seq<Byte>, n: nat)
    requires n > 0
    ensures Base(n, 0) == 0 && Base(n + 1, 0) == 0 && Unfiltered(r, n, 0) == []
  {
  }

  lemma {:induction false} FilteredRow(fs: seq<Filter>, s: seq<Byte>, n: nat, h: nat, y: nat)
    requires n > 0 && y < h <= |fs| && Base(n, h) <= |s|
    ensures Base(n + 1, y) + 1 + n <= Base(n + 1, h) && RowIn(s, n, y)
    ensures var r, k := Filtered(fs, s, n, h), Base(n + 1, y);
            r[k] == Number(fs[y]) && r[k + 1..k + 1 + n] == FilterRow(fs[y], s, n, y, n)
  {
    hide FilterRow;
    BaseGrows(n + 1, y, h);
    BaseGrows(n, y, h);
    var r, q, k := Filtered(fs, s, n, h), Filtered(fs, s, n, h - 1), Base(n + 1, y);
    var row := FilterRow(fs[h - 1], s, n, h - 1, n);
    assert r == q + [Number(fs[h - 1])] + row;
    hide Filtered;
    if y < h - 1 {
      FilteredRow(fs, s, n, h - 1, y);
      BaseGrows(n + 1, y, h - 1);
    }
    hide Base;
    RowOf(q, Number(fs[h - 1]), row, k);
  }

  /** A row behind the rows before it. */
  lemma RowOf(q: seq<Byte>, b: Byte, row: seq<Byte>, k: nat)
    ensures var r, n := q + [b] + row, |row|;
            && (k + 1 + n <= |q| ==> r[k] == q[k] && r[k + 1..k + 1 + n] == q[k + 1..k + 1 + n])
            && (k == |q| ==> r[k] == b && r[k + 1..k + 1 + n] == row)
  {
  }

  // ---- What the filter numbers mean ----

  /** The choice of the Paeth filter: of three bytes the one nearest to a + b - c, the earlier one on a tie. */
  predicate IsPaeth(a: Byte, b: Byte, c: Byte, q: Byte) {
    var t := a + b - c;
    && q in {a, b, c} && Nearer(q, a, t) && Nearer(q, b, t) && Nearer(q, c, t)
    && (q != a ==> !Nearer(a, q, t)) && (q != a && q != b ==> !Nearer(b, q, t))
  }

  /** What a filter number adds to a byte, given the bytes to the left, above, and above left. */
  predicate Adds(number: Byte, left: Byte, up: Byte, corner: Byte, q: Byte) {
    if number == 1 then q == left
    else if number == 2 then q == up
    else if number == 3 then q == (left + up) / 2
    else if number == 4 then IsPaeth(left, up, corner, q)
    else q == 0
  }

  /**
  Byte x of row y of an image of n bytes to a row, as section 6 of RFC 2083 has it: the filtered byte plus what the
  number of the row's filter adds, modulo 256. Bytes before the row, and above the first one, count as 0.
  */
  ghost predicate DecodedAt(r: seq<Byte>, s: seq<Byte>, n: nat, y: nat, x: nat) {
    ByteIs(r, s, n, y, x, y * (n + 1), y * n + x)
  }

  /** The byte d places back, if it is there. */
  function Back(s: seq<Byte>, k: nat, d: nat, there: bool): (b: Byte)
    requires k <= |s| && (there ==> 0 < d <= k)
  {
    if there then s[k - d] else 0
  }

  /** The same, with the place j of the filter number and the place k of the byte. */
  ghost predicate ByteIs(r: seq<Byte>, s: seq<Byte>, n: nat, y: nat, x: nat, j: nat, k: nat) {
    && j + 1 + x < |r| && x <= k < |s| && n > 0 && (y > 0 ==> n + x <= k)
    && Makes(r[j], Back(s, k, 4, x >= 4), Back(s, k, n, y > 0), Back(s, k, n + 4, x >= 4 && y > 0), r[j + 1 + x], s[k])
  }

  /** A filter number makes a byte of a filtered one. */
  ghost predicate Makes(number: Byte, left: Byte, up: Byte, corner: Byte, raw: int, b: Byte) {
    exists q: Byte :: Adds(number, left, up, corner, q) && b == (raw + q) % 256
  }

  lemma PredictAdds(number: Byte, s: seq<Byte>, n: nat, y: nat, x: nat, k: nat)
    requires Place(s, n, y, x, k) && 0 < n
    ensures Adds(number, Back(s, k, 4, x >= 4), Back(s, k, n, y > 0), Back(s, k, n + 4, x >= 4 && y > 0),
                 Predict(FilterOf(number), s, n, y, x, k))
  {
    hide PaethOf;
    hide IsPaeth;
    PaethNearest(Left(s, n, y, x, k), Above(s, n, y, x, k), AboveLeft(s, n, y, x, k));
  }

  /** The predictor chooses, of its three inputs, the first that is nearest to a + b - c. */
  lemma PaethNearest(a: Byte, b: Byte, c: Byte)
    ensures IsPaeth(a, b, c, PaethOf(a, b, c))
  {
  }

  lemma {:induction false} BaseIs(n: nat, y: nat)
    ensures Base(n, y) == y * n
  {
    if y > 0 {
      BaseIs(n, y - 1);
      assert y * n == (y - 1) * n + n;
    }
  }

  lemma {:induction false} RowPrefix(f: Filter, r: seq<Byte>, s: seq<Byte>, n: nat, y: nat, x: nat, x': nat)
    requires 0 < n && x <= x' <= |r| && (y > 0 ==> n <= |s|)
    ensures UnfilterRow(f, r, s, n, y, x) <= UnfilterRow(f, r, s, n, y, x')
  {
    hide Predict;
    if x < x' {
      RowPrefix(f, r, s, n, y, x, x' - 1);
    }
  }

  lemma {:induction false} RowsPrefix(r: seq<Byte>, n: nat, y: nat, h: nat)
    requires n > 0 && y <= h && Base(n + 1, h) <= |r|
    ensures Base(n + 1, y) <= |r| && Unfiltered(r, n, y) <= Unfiltered(r, n, h)
  {
    BaseGrows(n + 1, y, h);
    hide UnfilterRow;
    if y < h {
      RowsPrefix(r, n, y, h - 1);
    }
  }

  /** A byte of a row, from the bytes before it. */
  lemma RowByte(f: Filter, r: seq<Byte>, s: seq<Byte>, n: nat, y: nat, x: nat, line: seq<Byte>)
    requires 0 < n && x < n <= |r| && (y > 0 ==> n <= |s|) && line == s + UnfilterRow(f, r, s, n, y, n)
    ensures line[|s| + x] == Wrap(r[x] + Predict(f, line, n, y, x, |s| + x))
  {
    hide Predict;
    hide Wrap;
    var k := |s| + x;
    var t, next := s + UnfilterRow(f, r, s, n, y, x), s + UnfilterRow(f, r, s, n, y, x + 1);
    RowPrefix(f, r, s, n, y, x, n);
    RowPrefix(f, r, s, n, y, x + 1, n);
    UnfilterStep(f, r, s, n, y, x, t);
    hide UnfilterRow;
    assert line[..k] == t && line[k] == next[k];
    PredictPrefix(f, t, line, n, y, x, k);
  }

  /** Byte x of row y, from the bytes before it. */
  lemma UnfilteredAt(r: seq<Byte>, n: nat, h: nat, y: nat, x: nat)
    requires n > 0 && y < h && x < n && Base(n + 1, h) <= |r|
    ensures Base(n + 1, y) + 1 + x < |r| && Base(n, y) + x < Base(n, h)
    ensures var s, j, k := Unfiltered(r, n, h), Base(n + 1, y), Base(n, y) + x;
            Place(s, n, y, x, k) && s[k] == Wrap(r[j + 1 + x] + Predict(FilterOf(r[j]), s, n, y, x, k))
  {
    hide UnfilterRow;
    hide Predict;
    hide Wrap;
    hide FilterOf;
    hide Unfiltered;
    hide Base;
    RowStep(r, n, y, h);
    RowsPrefix(r, n, y + 1, h);
    var s, j, k := Unfiltered(r, n, h), Base(n + 1, y), Base(n, y) + x;
    var before, line, row := Unfiltered(r, n, y), Unfiltered(r, n, y + 1), r[j + 1..j + 1 + n];
    RowByte(FilterOf(r[j]), row, before, n, y, x, line);
    assert s[..k] == line[..k] && s[k] == line[k];
    PredictPrefix(FilterOf(r[j]), line, s, n, y, x, k);
  }

  /** Every byte of a defiltered image is what the filter number of its row says. */
  lemma DecodedBytes(r: seq<Byte>, n: nat, h: nat, y: nat, x: nat)
    requires n > 0 && y < h && x < n && Base(n + 1, h) <= |r|
    ensures DecodedAt(r, Unfiltered(r, n, h), n, y, x)
  {
    hide Unfiltered;
    hide Base;
    hide ByteIs;
    ByteFound(r, n, h, y, x);
    BaseIs(n, y);
    BaseIs(n + 1, y);
  }

  lemma ByteFound(r: seq<Byte>, n: nat, h: nat, y: nat, x: nat)
    requires n > 0 && y < h && x < n && Base(n + 1, h) <= |r|
    ensures ByteIs(r, Unfiltered(r, n, h), n, y, x, Base(n + 1, y), Base(n, y) + x)
  {
    hide Unfiltered;
    hide Base;
    hide Predict;
    hide Adds;
    hide Makes;
    hide FilterOf;
    hide Wrap;
    hide Back;
    UnfilteredAt(r, n, h, y, x);
    var s, j, k := Unfiltered(r, n, h), Base(n + 1, y), Base(n, y) + x;
    PredictAdds(r[j], s, n, y, x, k);
    MakesBy(r[j], Back(s, k, 4, x >= 4), Back(s, k, n, y > 0), Back(s, k, n + 4, x >= 4 && y > 0), r[j + 1 + x], s[k],
            Predict(FilterOf(r[j]), s, n, y, x, k));
  }

  lemma MakesBy(number: Byte, left: Byte, up: Byte, corner: Byte, raw: int, b: Byte, q: Byte)
    requires Adds(number, left, up, corner, q) && b == Wrap(raw + q)
    ensures Makes(number, left, up, corner, raw, b)
  {
  }

  // ---- The loops ----

  /** The inner loop of png_decoder_apply_defilter: one row, written after the rows before it. */
  method DefilterRow(f: Filter, r: seq<Byte>, src: nat, dst: array<Byte>, at: nat, n: nat, y: nat)
    requires 0 < n && src + n <= |r| && at + n <= dst.Length && (y > 0 ==> n <= at)
    modifies dst
    ensures dst[..at + n] == old(dst[..at]) + UnfilterRow(f, r[src..src + n], old(dst[..at]), n, y, n)
  {
    hide Predict;
    hide Wrap;
    ghost var row, s := r[src..src + n], dst[..at];
    for x := 0 to n
      invariant dst[..at + x] == s + UnfilterRow(f, row, s, n, y, x)
    {
      ghost var before := dst[..at + x];
      dst[at + x] := Wrap(r[src + x] + Predict(f, dst[..at + x], n, y, x, at + x));
      assert dst[..at + x + 1] == before + [dst[at + x]];
    }
  }

  /** The body of the row loop. */
  method DefilterNext(r: seq<Byte>, src: nat, dst: array<Byte>, at: nat, n: nat, y: nat, ghost h: nat)
    requires n > 0 && y < h && |r| == Base(n + 1, h) && dst.Length == Base(n, h)
    requires src == Base(n + 1, y) <= |r| && at == Base(n, y) <= dst.Length && dst[..at] == Unfiltered(r, n, y)
    modifies dst
    ensures src + 1 + n == Base(n + 1, y + 1) <= |r| && at + n == Base(n, y + 1) <= dst.Length
    ensures dst[..at + n] == Unfiltered(r, n, y + 1)
  {
    hide UnfilterRow;
    hide Unfiltered;
    hide Base;
    hide FilterOf;
    RowStep(r, n, y, h);
    DefilterRow(FilterOf(r[src]), r, src + 1, dst, at, n, y);
  }

  /** png_decoder_apply_defilter, for data of the right length. */
  method Defilter(r: seq<Byte>, w: nat, h: nat) returns (dst: array<Byte>)
    requires w > 0 && |r| == Base(4 * w + 1, h)
    ensures fresh(dst) && dst[..] == Unfiltered(r, 4 * w, h)
    ensures forall y: nat, x: nat | y < h && x < 4 * w :: DecodedAt(r, dst[..], 4 * w, y, x)
  {
    hide Unfiltered;
    hide Base;
    var n := 4 * w;
    var src, at := 0, 0;
    dst := new Byte[Base(n, h)](_ => 0);
    NoRows(r, n);
    for y := 0 to h
      invariant src == Base(n + 1, y) <= |r| && at == Base(n, y) <= dst.Length
      invariant dst[..at] == Unfiltered(r, n, y)
    {
      DefilterNext(r, src, dst, at, n, y, h);
      src, at := src + 1 + n, at + n;
    }
    assert dst[..] == dst[..at];
    hide DecodedAt;
    forall y: nat, x: nat | y < h && x < n ensures DecodedAt(r, dst[..], n, y, x) {
      DecodedBytes(r, n, h, y, x);
    }
  }

  /** A filter of least cost for a row, and of those the one with the least number. */
  ghost predicate Best(f: Filter, s: seq<Byte>, n: nat, y: nat)
    requires RowIn(s, n, y)
  {
    forall g: Filter ::
      && Cost(f, s, n, y, n) <= Cost(g, s, n, y, n)
      && (Number(g) < Number(f) ==> Cost(f, s, n, y, n) < Cost(g, s, n, y, n))
  }

  lemma {:induction false} CostBound(f: Filter, s: seq<Byte>, n: nat, y: nat, x: nat)
    requires RowIn(s, n, y) && x <= n
    ensures Cost(f, s, n, y, x) <= 255 * x
    ensures forall k: nat | k < x :: Abs(Residual(f, s, n, y, k)) <= Cost(f, s, n, y, x)
    ensures (forall k: nat | k < x :: Residual(f, s, n, y, k) == 0) ==> Cost(f, s, n, y, x) == 0
  {
    hide Residual;
    if x > 0 {
      assert Abs(Residual(f, s, n, y, x - 1)) <= 255 by { ResidualBound(f, s, n, y, x - 1); }
      CostBound(f, s, n, y, x - 1);
    }
  }

  lemma ResidualBound(f: Filter, s: seq<Byte>, n: nat, y: nat, x: nat)
    requires RowIn(s, n, y) && x < n
    ensures Abs(Residual(f, s, n, y, x)) <= 255
  {
    hide Predict;
  }

  const INT64_MAX: nat := 0x7FFF_FFFF_FFFF_FFFF

  /** One row under one filter, with its cost. */
  method TryFilter(f: Filter, s: seq<Byte>, n: nat, y: nat, at: nat) returns (line: seq<Byte>, cost: nat)
    requires RowIn(s, n, y) && at == Base(n, y)
    ensures line == FilterRow(f, s, n, y, n) && cost == Cost(f, s, n, y, n)
  {
    hide Predict;
    line, cost := [], 0;
    for x := 0 to n
      invariant line == FilterRow(f, s, n, y, x) && cost == Cost(f, s, n, y, x)
    {
      RowPlace(s, n, y, x);
      var fv := s[at + x] - Predict(f, s, n, y, x, at + x);
      line := line + [Wrap(fv)];
      cost := cost + Abs(fv);
    }
  }

  /** The loop over the filters for one row: the first of least cost. */
  method ChooseFilter(s: seq<Byte>, n: nat, y: nat, at: nat) returns (f: Filter, line: seq<Byte>)
    requires RowIn(s, n, y) && at == Base(n, y) && n < 0x4_0000_0000
    ensures Best(f, s, n, y) && line == FilterRow(f, s, n, y, n)
  {
    hide Cost;
    hide FilterRow;
    var least := INT64_MAX;
    f, line := Plain, [];
    for ft := 0 to 5
      invariant ft == 0 ==> least == INT64_MAX
      invariant ft > 0 ==> Number(f) < ft && least == Cost(f, s, n, y, n) && line == FilterRow(f, s, n, y, n)
      invariant forall g: Filter | Number(g) < ft ::
                  least <= Cost(g, s, n, y, n) && (Number(g) < Number(f) ==> least < Cost(g, s, n, y, n))
    {
      var g := FilterOf(ft);
      var tried, cost := TryFilter(g, s, n, y, at);
      CostBound(g, s, n, y, n);
      assert forall g': Filter | Number(g') < ft + 1 :: Number(g') < ft || g' == g;
      if cost < least {
        least, f, line := cost, g, tried;
      }
    }
  }

  lemma FilteredStep(fs: seq<Filter>, s: seq<Byte>, n: nat, y: nat, h: nat, f: Filter)
    requires n > 0 && y < h && |fs| == y && Base(n, h) <= |s|
    ensures Base(n, y) <= |s| && RowIn(s, n, y) && Base(n, y + 1) == Base(n, y) + n <= |s|
    ensures Base(n + 1, y + 1) == Base(n + 1, y) + 1 + n <= Base(n + 1, h)
    ensures Filtered(fs + [f], s, n, y + 1) == Filtered(fs, s, n, y) + [Number(f)] + FilterRow(f, s, n, y, n)
  {
    hide FilterRow;
    BaseGrows(n + 1, y + 1, h);
    BaseGrows(n, y + 1, h);
    FilteredSame(fs, fs + [f], s, n, y);
  }

  lemma {:induction false} FilteredSame(fs: seq<Filter>, fs': seq<Filter>, s: seq<Byte>, n: nat, y: nat)
    requires n > 0 && y <= |fs| && fs <= fs' && Base(n, y) <= |s|
    ensures Filtered(fs, s, n, y) == Filtered(fs', s, n, y)
  {
    hide FilterRow;
    if y > 0 {
      FilteredSame(fs, fs', s, n, y - 1);
    }
  }

  ghost predicate AllBest(fs: seq<Filter>, s: seq<Byte>, n: nat) {
    forall y: nat | y < |fs| :: RowIn(s, n, y) && Best(fs[y], s, n, y)
  }

  lemma AllBestMore(fs: seq<Filter>, s: seq<Byte>, n: nat, f: Filter)
    requires AllBest(fs, s, n) && RowIn(s, n, |fs|) && Best(f, s, n, |fs|)
    ensures AllBest(fs + [f], s, n)
  {
  }

  /** png_encoder_find_and_apply_filter. */
  method ApplyFilters(s: seq<Byte>, w: nat, h: nat) returns (dst: seq<Byte>, fs: seq<Filter>)
    requires 0 < w < 0x1_0000_0000 && |s| == Base(4 * w, h)
    ensures |fs| == h && dst == Filtered(fs, s, 4 * w, h)
    ensures AllBest(fs, s, 4 * w)
  {
    var n := 4 * w;
    var at := 0;
    dst, fs := [], [];
    assert Base(n, 0) == 0 && Filtered(fs, s, n, 0) == [] && AllBest(fs, s, n);
    hide Filtered;
    hide FilterRow;
    hide Base;
    hide AllBest;
    hide RowIn;
    for y := 0 to h
      invariant at == Base(n, y) <= |s| && |fs| == y && dst == Filtered(fs, s, n, y)
      invariant AllBest(fs, s, n)
    {
      FilteredStep(fs, s, n, y, h, Plain);
      var f, line := ChooseFilter(s, n, y, at);
      FilteredStep(fs, s, n, y, h, f);
      AllBestMore(fs, s, n, f);
      dst := dst + [Number(f)] + line;
      fs := fs + [f];
      at := at + n;
    }
  }
}

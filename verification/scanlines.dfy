/** The uncompressed image data `png_bytes` builds before compressing it into
    IDAT: one scanline per row, each a filter-type byte 0 ("None", sections 7.2
    and 9.2 of the PNG specification) followed by four octets R, G, B, A per
    pixel, pixels taken in row-major order from the caller's list. */
module Scanlines {
  import opened BigEndian
  import opened PngFormat

  /** One entry of the pixel list: a Python `(r, g, b, a)` tuple of integers. */
  datatype Pixel = Pixel(r: int, g: int, b: int, a: int)

  /** The filter type written before every scanline: 0, "None". */
  const FILTER_NONE: byte := 0

  /** The channels `bytes([r, g, b, a])` accepts without raising ValueError. */
  predicate InByteRange(p: Pixel) {
    0 <= p.r < 256 && 0 <= p.g < 256 && 0 <= p.b < 256 && 0 <= p.a < 256
  }

  function Channels(p: Pixel): (r: Bytes)
    requires InByteRange(p)
    ensures |r| == 4
  {
    [p.r, p.g, p.b, p.a]
  }

  /** Reading `pixels[k]` and writing its channels raises: the list is too short
      or a channel is not an octet. */
  predicate Faulty(pixels: seq<Pixel>, k: nat) {
    k >= |pixels| || !InByteRange(pixels[k])
  }

  /** The exception the loop raises at pixel index `k`. */
  function FaultAt(pixels: seq<Pixel>, k: nat): PngError {
    if k < |pixels| then ValueError(k) else IndexError(k)
  }

  /** The first `n` pixels exist and all their channels are octets. */
  predicate AllFit(pixels: seq<Pixel>, n: int) {
    forall k: nat :: k < n ==> !Faulty(pixels, k)
  }

  predicate AllInByteRange(ps: seq<Pixel>) {
    forall i :: 0 <= i < |ps| ==> InByteRange(ps[i])
  }

  /** The row-major index of the first pixel among the first `n` at which the
      loop raises, if any. */
  function FirstFault(pixels: seq<Pixel>, n: int): (r: Option<nat>)
    ensures r.None? <==> AllFit(pixels, n)
    ensures r.Some? ==> r.value < n && Faulty(pixels, r.value) && AllFit(pixels, r.value)
    decreases n
  {
    if n <= 0 then None
    else
      match FirstFault(pixels, n - 1)
      case Some(k) => Some(k)
      case None => if Faulty(pixels, n - 1) then Some(n - 1) else None
  }

  /** The first faulty index is the only one with no fault before it. */
  lemma FirstFaultIs(pixels: seq<Pixel>, n: int, k: nat)
    requires k < n && Faulty(pixels, k) && AllFit(pixels, k)
    ensures FirstFault(pixels, n) == Some(k)
  {
  }

  lemma AllFitBelow(pixels: seq<Pixel>, m: nat, n: nat)
    requires m <= n && AllFit(pixels, n)
    ensures AllFit(pixels, m) && m <= |pixels|
  {
    if m > 0 {
      assert !Faulty(pixels, m - 1);
    }
  }

  /** One more pixel that fits extends the run that fits. */
  lemma AllFitExtend(pixels: seq<Pixel>, n: nat)
    requires AllFit(pixels, n) && !Faulty(pixels, n)
    ensures AllFit(pixels, n + 1)
  {
  }

  lemma AllFitSlice(pixels: seq<Pixel>, lo: nat, hi: nat, n: nat)
    requires lo <= hi <= n && AllFit(pixels, n)
    ensures hi <= |pixels| && AllInByteRange(pixels[lo..hi])
  {
    AllFitBelow(pixels, hi, n);
    forall i | 0 <= i < hi - lo
      ensures InByteRange(pixels[lo..hi][i])
    {
      assert !Faulty(pixels, lo + i);
    }
  }

  lemma AllFitAppend(front: seq<Pixel>, n: nat, last: seq<Pixel>)
    requires |front| == n && AllFit(front, n) && AllInByteRange(last)
    ensures AllFit(front + last, n + |last|)
  {
    var ps := front + last;
    forall k: nat | k < |ps|
      ensures !Faulty(ps, k)
    {
      if k < |front| {
        assert !Faulty(front, k);
      } else {
        assert ps[k] == last[k - |front|];
      }
    }
  }

  /** Whether a prefix fits depends only on that prefix. */
  lemma AllFitPrefix(ps: seq<Pixel>, qs: seq<Pixel>, n: nat)
    requires n <= |ps| && n <= |qs| && ps[..n] == qs[..n] && AllFit(ps, n)
    ensures AllFit(qs, n)
  {
    forall k: nat | k < n
      ensures !Faulty(qs, k)
    {
      assert ps[k] == ps[..n][k] == qs[..n][k] == qs[k];
      assert !Faulty(ps, k);
    }
  }

  /** The channel bytes of a run of pixels, in order. */
  function PixelRun(ps: seq<Pixel>): (r: Bytes)
    requires AllInByteRange(ps)
    ensures |r| == 4 * |ps|
  {
    if ps == [] then [] else PixelRun(ps[..|ps| - 1]) + Channels(ps[|ps| - 1])
  }

  /** Channel `c` of the `x`-th pixel of a run sits at offset `4 * x + c`. */
  lemma {:induction false} PixelRunAt(ps: seq<Pixel>, x: nat, c: nat)
    requires AllInByteRange(ps) && x < |ps| && c < 4
    ensures PixelRun(ps)[4 * x + c] == Channels(ps[x])[c]
  {
    if x < |ps| - 1 {
      PixelRunAt(ps[..|ps| - 1], x, c);
    }
  }

  /** Writing one more pixel of a run appends its four channels. */
  lemma PixelRunSnoc(pixels: seq<Pixel>, lo: nat, k: nat)
    requires lo <= k < |pixels| && AllInByteRange(pixels[lo..k]) && InByteRange(pixels[k])
    ensures AllInByteRange(pixels[lo..k + 1])
    ensures PixelRun(pixels[lo..k + 1]) == PixelRun(pixels[lo..k]) + Channels(pixels[k])
  {
    assert pixels[lo..k + 1][..k - lo] == pixels[lo..k];
  }

  /** Regroups channel bytes four at a time into pixels. */
  function Group(b: Bytes): (ps: seq<Pixel>)
    requires |b| % 4 == 0
    ensures |ps| == |b| / 4
  {
    if b == [] then []
    else
      var n := |b|;
      Group(b[..n - 4]) + [Pixel(b[n - 4], b[n - 3], b[n - 2], b[n - 1])]
  }

  lemma {:induction false} GroupPixelRun(ps: seq<Pixel>)
    requires AllInByteRange(ps)
    ensures Group(PixelRun(ps)) == ps
  {
    if ps != [] {
      var front := ps[..|ps| - 1];
      GroupPixelRun(front);
      GroupAppend(PixelRun(front), ps[|ps| - 1]);
      SplitLast(ps);
    }
  }

  /** Regrouping a run with four more channel bytes adds one pixel. */
  lemma GroupAppend(b: Bytes, p: Pixel)
    requires |b| % 4 == 0 && InByteRange(p)
    ensures Group(b + Channels(p)) == Group(b) + [p]
  {
    assert (b + Channels(p))[..|b|] == b;
  }

  lemma SplitLast(ps: seq<Pixel>)
    requires ps != []
    ensures ps == ps[..|ps| - 1] + [ps[|ps| - 1]]
  {
  }

  lemma {:induction false} PixelRunGroup(b: Bytes)
    requires |b| % 4 == 0
    ensures AllInByteRange(Group(b)) && PixelRun(Group(b)) == b
  {
    if b != [] {
      var n := |b|;
      PixelRunGroup(b[..n - 4]);
      PixelRunAppend(Group(b[..n - 4]), Pixel(b[n - 4], b[n - 3], b[n - 2], b[n - 1]));
      SplitLastFour(b);
    }
  }

  /** The channels of a run with one more pixel. */
  lemma PixelRunAppend(ps: seq<Pixel>, p: Pixel)
    requires AllInByteRange(ps) && InByteRange(p)
    ensures AllInByteRange(ps + [p])
    ensures PixelRun(ps + [p]) == PixelRun(ps) + Channels(p)
  {
    assert (ps + [p])[..|ps|] == ps;
  }

  lemma SplitLastFour(b: Bytes)
    requires |b| >= 4
    ensures b == b[..|b| - 4] + [b[|b| - 4], b[|b| - 3], b[|b| - 2], b[|b| - 1]]
  {
  }

  lemma SplitAt(s: Bytes, i: nat)
    requires i < |s|
    ensures s == s[..i] + [s[i]] + s[i + 1..]
  {
  }

  lemma FourTimes(n: nat)
    ensures (4 * n) % 4 == 0 && (4 * n) / 4 == n
  {
  }

  // Row arithmetic. The recursive definitions below count rows with `Mul`,
  // repeated addition, rather than `*`: the solver then unfolds a product one
  // row at a time instead of reasoning about products of variables.

  function Mul(a: nat, b: nat): nat {
    if a == 0 then 0 else Mul(a - 1, b) + b
  }

  lemma {:induction false} MulIsProduct(a: nat, b: nat)
    ensures Mul(a, b) == a * b
  {
    if a > 0 {
      MulIsProduct(a - 1, b);
    }
  }

  lemma {:induction false} MulMono(a: nat, b: nat, c: nat)
    requires a <= b
    ensures Mul(a, c) <= Mul(b, c)
  {
    if a < b {
      MulMono(a, b - 1, c);
    }
  }

  /** Row `y` of `rows` ends no later than the last row does. */
  lemma RowBounds(width: nat, rows: nat, y: nat)
    requires y < rows
    ensures Mul(y, width) + width <= Mul(rows, width)
  {
    assert Mul(y + 1, width) == Mul(y, width) + width;
    MulMono(y + 1, rows, width);
  }

  /** Bytes per scanline: the filter byte and four channels per pixel. */
  function Stride(width: nat): nat {
    1 + 4 * width
  }

  /** The first `rows` scanlines, counted with `Mul`. */
  function Rows(width: nat, rows: nat, pixels: seq<Pixel>): (r: Bytes)
    requires AllFit(pixels, Mul(rows, width))
    ensures |r| == Mul(rows, Stride(width))
  {
    if rows == 0 then []
    else
      var lo, hi := Mul(rows - 1, width), Mul(rows, width);
      AllFitBelow(pixels, lo, hi);
      AllFitSlice(pixels, lo, hi, hi);
      Rows(width, rows - 1, pixels) + [FILTER_NONE] + PixelRun(pixels[lo..hi])
  }

  lemma {:induction false} RowsFilterByte(width: nat, rows: nat, pixels: seq<Pixel>, y: nat)
    requires AllFit(pixels, Mul(rows, width)) && y < rows
    ensures Mul(y, Stride(width)) < |Rows(width, rows, pixels)|
    ensures Rows(width, rows, pixels)[Mul(y, Stride(width))] == FILTER_NONE
  {
    RowBounds(Stride(width), rows, y);
    if y < rows - 1 {
      AllFitBelow(pixels, Mul(rows - 1, width), Mul(rows, width));
      RowsFilterByte(width, rows - 1, pixels, y);
    }
  }

  /** The first `n` scanlines of `rows` are `Rows(width, n, pixels)`. */
  lemma {:induction false} RowsTake(width: nat, rows: nat, pixels: seq<Pixel>, n: nat)
    requires n <= rows && AllFit(pixels, Mul(rows, width))
    ensures AllFit(pixels, Mul(n, width))
    ensures Mul(n, Stride(width)) <= |Rows(width, rows, pixels)|
    ensures Rows(width, rows, pixels)[..Mul(n, Stride(width))] == Rows(width, n, pixels)
  {
    if n < rows {
      AllFitBelow(pixels, Mul(rows - 1, width), Mul(rows, width));
      RowsTake(width, rows - 1, pixels, n);
      RowsTakeLast(width, rows, pixels, Mul(n, Stride(width)));
    }
  }

  /** A prefix of the first `rows - 1` scanlines is one of the first `rows`. */
  lemma RowsTakeLast(width: nat, rows: nat, pixels: seq<Pixel>, m: nat)
    requires rows > 0 && AllFit(pixels, Mul(rows, width))
    requires AllFit(pixels, Mul(rows - 1, width)) && m <= |Rows(width, rows - 1, pixels)|
    ensures m <= |Rows(width, rows, pixels)|
    ensures Rows(width, rows, pixels)[..m] == Rows(width, rows - 1, pixels)[..m]
  {
    RowsStep(width, rows, pixels);
  }

  lemma RowsChannel(width: nat, rows: nat, pixels: seq<Pixel>, y: nat, x: nat, c: nat)
    requires AllFit(pixels, Mul(rows, width)) && y < rows && x < width && c < 4
    ensures Mul(y, width) + x < |pixels| && InByteRange(pixels[Mul(y, width) + x])
    ensures Mul(y, Stride(width)) + 1 + 4 * x + c < |Rows(width, rows, pixels)|
    ensures Rows(width, rows, pixels)[Mul(y, Stride(width)) + 1 + 4 * x + c]
         == Channels(pixels[Mul(y, width) + x])[c]
  {
    RowsTake(width, rows, pixels, y + 1);
    RowsLastAt(width, y, pixels, x, c);
    TakeIndex(Rows(width, rows, pixels), Mul(y + 1, Stride(width)), Mul(y, Stride(width)) + 1 + 4 * x + c);
  }

  lemma TakeIndex(s: Bytes, m: nat, i: nat)
    requires i < m <= |s|
    ensures s[..m][i] == s[i]
  {
  }

  /** Channel `c` of pixel `x` of row `y`, the last of `y + 1`, at its offset in that row. */
  lemma RowsLastAt(width: nat, y: nat, pixels: seq<Pixel>, x: nat, c: nat)
    requires AllFit(pixels, Mul(y + 1, width)) && x < width && c < 4
    ensures Mul(y, width) + x < |pixels| && InByteRange(pixels[Mul(y, width) + x])
    ensures Mul(y, Stride(width)) + 1 + 4 * x + c < Mul(y + 1, Stride(width))
    ensures Rows(width, y + 1, pixels)[Mul(y, Stride(width)) + 1 + 4 * x + c]
         == Channels(pixels[Mul(y, width) + x])[c]
  {
    RowsStep(width, y + 1, pixels);
    var run := pixels[Mul(y, width)..Mul(y + 1, width)];
    PixelRunAt(run, x, c);
    SliceIndex(pixels, Mul(y, width), Mul(y + 1, width), x);
  }

  lemma SliceIndex(ps: seq<Pixel>, lo: nat, hi: nat, x: nat)
    requires lo + x < hi <= |ps|
    ensures ps[lo..hi][x] == ps[lo + x]
  {
  }

  /** `Rows` depends only on the pixels it reads. */
  lemma {:induction false} RowsPrefix(width: nat, rows: nat, ps: seq<Pixel>, qs: seq<Pixel>)
    requires Mul(rows, width) <= |ps| && Mul(rows, width) <= |qs| && AllFit(ps, Mul(rows, width))
    requires ps[..Mul(rows, width)] == qs[..Mul(rows, width)]
    ensures AllFit(qs, Mul(rows, width)) && Rows(width, rows, ps) == Rows(width, rows, qs)
  {
    var hi := Mul(rows, width);
    AllFitPrefix(ps, qs, hi);
    if rows > 0 {
      var lo := Mul(rows - 1, width);
      assert ps[..lo] == ps[..hi][..lo];
      assert qs[..lo] == qs[..hi][..lo];
      AllFitBelow(ps, lo, hi);
      RowsPrefix(width, rows - 1, ps, qs);
      assert ps[lo..hi] == ps[..hi][lo..];
      assert qs[lo..hi] == qs[..hi][lo..];
    }
  }

  /** Recovers pixels from `rows` scanlines, each of which must carry filter type 0. */
  function UnfilterRows(raw: Bytes, width: nat, rows: nat): (r: Option<seq<Pixel>>)
    requires |raw| == Mul(rows, Stride(width))
    ensures r.Some? ==> |r.value| == Mul(rows, width)
  {
    if rows == 0 then Some([])
    else
      var start := Mul(rows - 1, Stride(width));
      FourTimes(width);
      match UnfilterRows(raw[..start], width, rows - 1)
      case None => None
      case Some(ps) =>
        if raw[start] == FILTER_NONE then Some(ps + Group(raw[start + 1..])) else None
  }

  /** One more scanline with filter type 0 adds its regrouped pixels. */
  lemma UnfilterRowsStep(width: nat, rows: nat, front: Bytes, tail: Bytes, ps: seq<Pixel>)
    requires rows > 0 && |front| == Mul(rows - 1, Stride(width)) && |tail| == 4 * width
    requires UnfilterRows(front, width, rows - 1) == Some(ps)
    ensures |front + [FILTER_NONE] + tail| == Mul(rows, Stride(width))
    ensures UnfilterRows(front + [FILTER_NONE] + tail, width, rows) == Some(ps + Group(tail))
  {
    var raw := front + [FILTER_NONE] + tail;
    var start := Mul(rows - 1, Stride(width));
    assert raw[..start] == front;
    assert raw[start + 1..] == tail;
  }

  lemma RowsStep(width: nat, rows: nat, pixels: seq<Pixel>)
    requires rows > 0 && AllFit(pixels, Mul(rows, width))
    ensures Mul(rows - 1, width) + width == Mul(rows, width) <= |pixels|
    ensures AllFit(pixels, Mul(rows - 1, width))
    ensures AllInByteRange(pixels[Mul(rows - 1, width)..Mul(rows, width)])
    ensures Rows(width, rows, pixels)
         == Rows(width, rows - 1, pixels) + [FILTER_NONE] + PixelRun(pixels[Mul(rows - 1, width)..Mul(rows, width)])
  {
    AllFitBelow(pixels, Mul(rows - 1, width), Mul(rows, width));
    AllFitSlice(pixels, Mul(rows - 1, width), Mul(rows, width), Mul(rows, width));
  }

  lemma {:induction false} UnfilterRowsOfRows(width: nat, rows: nat, pixels: seq<Pixel>)
    requires AllFit(pixels, Mul(rows, width))
    ensures Mul(rows, width) <= |pixels|
    ensures UnfilterRows(Rows(width, rows, pixels), width, rows) == Some(pixels[..Mul(rows, width)])
  {
    AllFitBelow(pixels, Mul(rows, width), Mul(rows, width));
    if rows > 0 {
      AllFitBelow(pixels, Mul(rows - 1, width), Mul(rows, width));
      UnfilterRowsOfRows(width, rows - 1, pixels);
      UnfilterRowsOfRowsLast(width, rows, pixels);
    }
  }

  /** The inductive step of `UnfilterRowsOfRows`. */
  lemma UnfilterRowsOfRowsLast(width: nat, rows: nat, pixels: seq<Pixel>)
    requires rows > 0 && AllFit(pixels, Mul(rows, width))
    requires AllFit(pixels, Mul(rows - 1, width)) && Mul(rows - 1, width) <= |pixels|
    requires UnfilterRows(Rows(width, rows - 1, pixels), width, rows - 1) == Some(pixels[..Mul(rows - 1, width)])
    ensures Mul(rows, width) <= |pixels|
    ensures UnfilterRows(Rows(width, rows, pixels), width, rows) == Some(pixels[..Mul(rows, width)])
  {
    RowsStep(width, rows, pixels);
    var lo, hi := Mul(rows - 1, width), Mul(rows, width);
    UnfilterAppendRun(width, rows, Rows(width, rows - 1, pixels), pixels[lo..hi], pixels[..lo]);
    TakeSlice(pixels, lo, hi);
  }

  lemma TakeSlice(ps: seq<Pixel>, lo: nat, hi: nat)
    requires lo <= hi <= |ps|
    ensures ps[..lo] + ps[lo..hi] == ps[..hi]
  {
  }

  /** A scanline of filter type 0 written from a run of pixels reads back as that run. */
  lemma UnfilterAppendRun(width: nat, rows: nat, front: Bytes, run: seq<Pixel>, ps: seq<Pixel>)
    requires rows > 0 && |front| == Mul(rows - 1, Stride(width))
    requires |run| == width && AllInByteRange(run)
    requires UnfilterRows(front, width, rows - 1) == Some(ps)
    ensures |front + [FILTER_NONE] + PixelRun(run)| == Mul(rows, Stride(width))
    ensures UnfilterRows(front + [FILTER_NONE] + PixelRun(run), width, rows) == Some(ps + run)
  {
    GroupPixelRun(run);
    UnfilterRowsStep(width, rows, front, PixelRun(run), ps);
  }

  /** The scanlines before the last of a buffer `UnfilterRows` accepts are accepted too. */
  lemma UnfilterRowsFront(raw: Bytes, width: nat, rows: nat)
    requires rows > 0 && |raw| == Mul(rows, Stride(width)) && UnfilterRows(raw, width, rows).Some?
    ensures Mul(rows - 1, Stride(width)) <= |raw|
    ensures UnfilterRows(raw[..Mul(rows - 1, Stride(width))], width, rows - 1).Some?
  {
  }

  lemma {:induction false} RowsOfUnfilterRows(raw: Bytes, width: nat, rows: nat, ps: seq<Pixel>)
    requires |raw| == Mul(rows, Stride(width)) && UnfilterRows(raw, width, rows) == Some(ps)
    ensures AllFit(ps, Mul(rows, width)) && Rows(width, rows, ps) == raw
  {
    if rows > 0 {
      var start := Mul(rows - 1, Stride(width));
      UnfilterRowsFront(raw, width, rows);
      var front := UnfilterRows(raw[..start], width, rows - 1).value;
      RowsOfUnfilterRows(raw[..start], width, rows - 1, front);
      RowsOfUnfilterRowsLast(raw, width, rows, front, ps);
    }
  }

  /** The inductive step of `RowsOfUnfilterRows`, on the buffer as a whole:
      `front` holds the pixels of all rows but the last. */
  lemma RowsOfUnfilterRowsLast(raw: Bytes, width: nat, rows: nat, front: seq<Pixel>, ps: seq<Pixel>)
    requires rows > 0 && |raw| == Mul(rows, Stride(width)) && UnfilterRows(raw, width, rows) == Some(ps)
    requires UnfilterRows(raw[..Mul(rows - 1, Stride(width))], width, rows - 1) == Some(front)
    requires AllFit(front, Mul(rows - 1, width)) && Rows(width, rows - 1, front) == raw[..Mul(rows - 1, Stride(width))]
    ensures AllFit(ps, Mul(rows, width)) && Rows(width, rows, ps) == raw
  {
    var start := Mul(rows - 1, Stride(width));
    SplitAt(raw, start);
    RowsOfUnfilterRowsStep(raw[..start], raw[start + 1..], width, rows, front);
  }

  /** Appending one full row of valid pixels appends one scanline. */
  lemma RowsAppendRow(width: nat, rows: nat, front: seq<Pixel>, last: seq<Pixel>)
    requires rows > 0 && |front| == Mul(rows - 1, width) && AllFit(front, Mul(rows - 1, width))
    requires |last| == width && AllInByteRange(last)
    ensures AllFit(front + last, Mul(rows, width))
    ensures Rows(width, rows, front + last) == Rows(width, rows - 1, front) + [FILTER_NONE] + PixelRun(last)
  {
    var ps := front + last;
    var lo := Mul(rows - 1, width);
    AllFitAppend(front, lo, last);
    assert ps[..lo] == front;
    RowsPrefix(width, rows - 1, front, ps);
    RowsStep(width, rows, ps);
    assert ps[lo..Mul(rows, width)] == last;
  }

  lemma RowsOfUnfilterRowsStep(head: Bytes, tail: Bytes, width: nat, rows: nat, front: seq<Pixel>)
    requires rows > 0 && |head| == Mul(rows - 1, Stride(width)) && |tail| == 4 * width
    requires UnfilterRows(head, width, rows - 1) == Some(front)
    requires AllFit(front, Mul(rows - 1, width)) && Rows(width, rows - 1, front) == head
    ensures AllFit(front + Group(tail), Mul(rows, width))
    ensures Rows(width, rows, front + Group(tail)) == head + [FILTER_NONE] + tail
  {
    FourTimes(width);
    PixelRunGroup(tail);
    RowsAppendRow(width, rows, front, Group(tail));
  }

  // The buffer and its inverse, stated with ordinary products.

  /** The buffer `raw` holds once the loop has written the first `rows` rows
      of a `width`-pixel-wide image. */
  function Raw(width: nat, rows: nat, pixels: seq<Pixel>): (r: Bytes)
    requires AllFit(pixels, rows * width)
    ensures |r| == rows * (1 + 4 * width)
  {
    MulIsProduct(rows, width);
    MulIsProduct(rows, Stride(width));
    Rows(width, rows, pixels)
  }

  /** Recovers the pixels from the uncompressed data of `rows` scanlines; None
      when a scanline's filter type is not 0. */
  function Unfilter(raw: Bytes, width: nat, rows: nat): (r: Option<seq<Pixel>>)
    requires |raw| == rows * (1 + 4 * width)
    ensures r.Some? ==> |r.value| == rows * width
  {
    MulIsProduct(rows, Stride(width));
    MulIsProduct(rows, width);
    UnfilterRows(raw, width, rows)
  }

  /** Row `y` begins with filter type 0 at offset `y * (1 + 4 * width)`. */
  lemma RawFilterByte(width: nat, rows: nat, pixels: seq<Pixel>, y: nat)
    requires AllFit(pixels, rows * width) && y < rows
    ensures y * (1 + 4 * width) < |Raw(width, rows, pixels)|
    ensures Raw(width, rows, pixels)[y * (1 + 4 * width)] == FILTER_NONE
  {
    MulIsProduct(rows, width);
    MulIsProduct(y, Stride(width));
    RowsFilterByte(width, rows, pixels, y);
  }

  /** Channel `c` (0 to 3 for r, g, b, a) of pixel `(x, y)` sits at offset
      `y * (1 + 4 * width) + 1 + 4 * x + c` and holds that channel of
      `pixels[y * width + x]`. */
  lemma RawChannel(width: nat, rows: nat, pixels: seq<Pixel>, y: nat, x: nat, c: nat)
    requires AllFit(pixels, rows * width) && y < rows && x < width && c < 4
    ensures 0 <= y * width && 0 <= y * (1 + 4 * width)
    ensures y * width + x < |pixels| && InByteRange(pixels[y * width + x])
    ensures y * (1 + 4 * width) + 1 + 4 * x + c < |Raw(width, rows, pixels)|
    ensures Raw(width, rows, pixels)[y * (1 + 4 * width) + 1 + 4 * x + c]
         == Channels(pixels[y * width + x])[c]
  {
    MulIsProduct(rows, width);
    MulIsProduct(y, width);
    MulIsProduct(y, Stride(width));
    RowsChannel(width, rows, pixels, y, x, c);
  }

  /** Stripping each row's filter byte and regrouping the rest in fours gives
      back the first `rows * width` pixels, in row-major order. */
  lemma UnfilterRaw(width: nat, rows: nat, pixels: seq<Pixel>)
    requires AllFit(pixels, rows * width)
    ensures rows * width <= |pixels|
    ensures |Raw(width, rows, pixels)| == rows * (1 + 4 * width)
    ensures Unfilter(Raw(width, rows, pixels), width, rows) == Some(pixels[..rows * width])
  {
    MulIsProduct(rows, width);
    MulIsProduct(rows, Stride(width));
    UnfilterRowsOfRows(width, rows, pixels);
  }

  /** Conversely, every buffer `Unfilter` accepts is the one the loop writes
      for the pixels it recovers. */
  lemma RawUnfilter(raw: Bytes, width: nat, rows: nat)
    requires |raw| == rows * (1 + 4 * width) && Unfilter(raw, width, rows).Some?
    ensures AllFit(Unfilter(raw, width, rows).value, rows * width)
    ensures Raw(width, rows, Unfilter(raw, width, rows).value) == raw
  {
    MulIsProduct(rows, width);
    MulIsProduct(rows, Stride(width));
    RowsOfUnfilterRows(raw, width, rows, Unfilter(raw, width, rows).value);
  }
}

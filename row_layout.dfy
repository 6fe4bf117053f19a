/**
 * Byte buffers laid out row by row.
 *
 * A pixel buffer stores `n` rows of `len` meaningful bytes, row `i` starting at
 * byte `i * step`; the `step - len` bytes after each row are alignment padding.
 * A wire record stores the same rows densely packed (`step == len`).  Both image
 * converters move rows between the two layouts with one `memcpy` per row; this
 * module gives that row copy a meaning and proves what it does.
 */
module RowLayout {

  newtype byte = x: int | 0 <= x < 256

  /**
   * The offset `i * step` of row `i`, written as a sum of `i` steps so that the
   * row lemmas below need only linear arithmetic; OffsetIsProduct connects it
   * to the product.
   */
  function Offset(i: nat, step: nat): nat {
    if i == 0 then 0 else Offset(i - 1, step) + step
  }

  lemma {:induction false} OffsetIsProduct(i: nat, step: nat)
    ensures Offset(i, step) == i * step
  {
    if i > 0 {
      OffsetIsProduct(i - 1, step);
      assert i * step == (i - 1) * step + step;
    }
  }

  /** `n` rows of `len` bytes, one every `step` bytes, fit in `size` bytes. */
  predicate Fits(n: nat, step: nat, len: nat, size: nat) {
    len <= step && Offset(n, step) <= size
  }

  /** Row `i < n` (and the padding after it) ends inside the `n` rows. */
  lemma {:induction false} RowFits(i: nat, n: nat, step: nat, len: nat)
    requires i < n && len <= step
    ensures Offset(i + 1, step) == Offset(i, step) + step
    ensures Offset(i, step) + len <= Offset(i + 1, step) <= Offset(n, step)
  {
    if i + 1 < n {
      RowFits(i, n - 1, step, len);
    }
  }

  /** The `len` meaningful bytes of row `i`. */
  function Row(s: seq<byte>, step: nat, len: nat, i: nat): seq<byte>
    requires Offset(i, step) + len <= |s|
  {
    s[Offset(i, step) .. Offset(i, step) + len]
  }

  /** The padding bytes after row `i`. */
  function Gap(s: seq<byte>, step: nat, len: nat, i: nat): seq<byte>
    requires Offset(i, step) + len <= Offset(i + 1, step) <= |s|
  {
    s[Offset(i, step) + len .. Offset(i + 1, step)]
  }

  /** The first `n` rows of `a` and of `b` hold the same bytes. */
  predicate RowsAgree(a: seq<byte>, aStep: nat, b: seq<byte>, bStep: nat, len: nat, n: nat)
    requires Fits(n, aStep, len, |a|) && Fits(n, bStep, len, |b|)
  {
    forall i :: 0 <= i < n ==>
      (RowFits(i, n, aStep, len); RowFits(i, n, bStep, len);
       Row(a, aStep, len, i) == Row(b, bStep, len, i))
  }

  /** The padding after each of the first `n` rows is the same in `a` and `b`. */
  predicate GapsAgree(a: seq<byte>, b: seq<byte>, step: nat, len: nat, n: nat)
    requires Fits(n, step, len, |a|) && Fits(n, step, len, |b|)
  {
    forall i :: 0 <= i < n ==>
      (RowFits(i, n, step, len); Gap(a, step, len, i) == Gap(b, step, len, i))
  }

  /** `memcpy(dst + off, src, |src|)`. */
  function Overwrite(dst: seq<byte>, off: nat, src: seq<byte>): (r: seq<byte>)
    requires off + |src| <= |dst|
    ensures |r| == |dst|
    ensures r[off .. off + |src|] == src
    ensures r[..off] == dst[..off] && r[off + |src|..] == dst[off + |src|..]
  {
    dst[..off] + src + dst[off + |src|..]
  }

  lemma OverwriteAt(dst: seq<byte>, off: nat, src: seq<byte>, k: nat)
    requires off + |src| <= |dst| && k < |dst|
    ensures Overwrite(dst, off, src)[k] == if off <= k < off + |src| then src[k - off] else dst[k]
  {
  }

  /** Bytes inside a common prefix of `r` and `q` agree. */
  lemma SliceInPrefix(r: seq<byte>, q: seq<byte>, off: nat, a: nat, b: nat)
    requires a <= b <= off <= |r| && off <= |q| && r[..off] == q[..off]
    ensures r[a..b] == q[a..b]
  {
    assert r[a..b] == r[..off][a..b];
    assert q[a..b] == q[..off][a..b];
  }

  /** Byte `k` of `dst` after the row loop below: the last row that covers it decides. */
  function CopiedByte(dst: seq<byte>, dstStep: nat, src: seq<byte>, srcStep: nat, len: nat, n: nat, k: nat): byte
    requires Fits(n, dstStep, len, |dst|) && Fits(n, srcStep, len, |src|) && k < |dst|
    decreases n
  {
    if n == 0 then dst[k]
    else
      RowFits(n - 1, n, dstStep, len);
      RowFits(n - 1, n, srcStep, len);
      var off := Offset(n - 1, dstStep);
      if off <= k < off + len then src[Offset(n - 1, srcStep) + (k - off)]
      else CopiedByte(dst, dstStep, src, srcStep, len, n - 1, k)
  }

  /**
   * `dst` after the row loop `for i < n: memcpy(dst + i*dstStep, src + i*srcStep, len)`,
   * the loop both converters run.
   */
  function CopyRows(dst: seq<byte>, dstStep: nat, src: seq<byte>, srcStep: nat, len: nat, n: nat): (r: seq<byte>)
    requires Fits(n, dstStep, len, |dst|) && Fits(n, srcStep, len, |src|)
    ensures |r| == |dst|
  {
    seq(|dst|, k requires 0 <= k < |dst| => CopiedByte(dst, dstStep, src, srcStep, len, n, k))
  }

  /** One more turn of the row loop is one more `memcpy`. */
  lemma CopyRowsStep(dst: seq<byte>, dstStep: nat, src: seq<byte>, srcStep: nat, len: nat, n: nat)
    requires Fits(n, dstStep, len, |dst|) && Fits(n, srcStep, len, |src|) && n > 0
    ensures Offset(n - 1, dstStep) + len <= |dst| && Offset(n - 1, srcStep) + len <= |src|
    ensures Fits(n - 1, dstStep, len, |dst|) && Fits(n - 1, srcStep, len, |src|)
    ensures CopyRows(dst, dstStep, src, srcStep, len, n)
         == Overwrite(CopyRows(dst, dstStep, src, srcStep, len, n - 1), Offset(n - 1, dstStep), Row(src, srcStep, len, n - 1))
  {
    RowFits(n - 1, n, dstStep, len);
    RowFits(n - 1, n, srcStep, len);
    var q := CopyRows(dst, dstStep, src, srcStep, len, n - 1);
    var off := Offset(n - 1, dstStep);
    var row := Row(src, srcStep, len, n - 1);
    forall k | 0 <= k < |dst|
      ensures CopyRows(dst, dstStep, src, srcStep, len, n)[k] == Overwrite(q, off, row)[k]
    {
      OverwriteAt(q, off, row, k);
    }
  }

  /** `memcpy(a + off, src, |src|)` on a buffer. */
  method MemCopy(a: array<byte>, off: nat, src: seq<byte>)
    requires off + |src| <= a.Length
    modifies a
    ensures a[..] == Overwrite(old(a[..]), off, src)
  {
    var k := 0;
    while k < |src|
      invariant k <= |src|
      invariant forall j :: 0 <= j < a.Length ==> a[j] == if off <= j < off + k then src[j - off] else old(a[j])
    {
      a[off + k] := src[k];
      k := k + 1;
    }
    forall j | 0 <= j < a.Length
      ensures a[..][j] == Overwrite(old(a[..]), off, src)[j]
    {
      OverwriteAt(old(a[..]), off, src, j);
    }
  }

  /** Fewer rows fit wherever more rows do. */
  lemma FitsFewer(i: nat, n: nat, step: nat, len: nat, size: nat)
    requires i <= n && Fits(n, step, len, size)
    ensures Fits(i, step, len, size)
  {
    OffsetMono(i, n, step);
  }

  /**
   * The row loop `for i < n: memcpy(a + i*dstStep, src + i*srcStep, len)` of
   * both converters (`Offset(i, s)` is `i * s`, see OffsetIsProduct).
   */
  method CopyRowLoop(a: array<byte>, dstStep: nat, src: seq<byte>, srcStep: nat, len: nat, n: nat)
    requires Fits(n, dstStep, len, a.Length) && Fits(n, srcStep, len, |src|)
    modifies a
    ensures a[..] == CopyRows(old(a[..]), dstStep, src, srcStep, len, n)
  {
    ghost var base := a[..];
    for i := 0 to n
      invariant Fits(i, dstStep, len, a.Length) && Fits(i, srcStep, len, |src|)
      invariant a[..] == CopyRows(base, dstStep, src, srcStep, len, i)
    {
      FitsFewer(i + 1, n, dstStep, len, a.Length);
      FitsFewer(i + 1, n, srcStep, len, |src|);
      CopyRowsStep(base, dstStep, src, srcStep, len, i + 1);
      MemCopy(a, Offset(i, dstStep), src[Offset(i, srcStep) .. Offset(i, srcStep) + len]);
    }
  }

  /** The first `n` rows of `src`, concatenated without their padding. */
  function Packed(src: seq<byte>, srcStep: nat, len: nat, n: nat): (r: seq<byte>)
    requires Fits(n, srcStep, len, |src|)
    ensures |r| == Offset(n, len)
    decreases n
  {
    if n == 0 then []
    else
      RowFits(n - 1, n, srcStep, len);
      Packed(src, srcStep, len, n - 1) + Row(src, srcStep, len, n - 1)
  }

  /** Row `i` of the packed sequence is row `i` of the source. */
  lemma {:induction false} PackedRowAt(src: seq<byte>, srcStep: nat, len: nat, n: nat, i: nat)
    requires Fits(n, srcStep, len, |src|) && i < n
    ensures Offset(i, len) + len <= Offset(n, len) && Offset(i, srcStep) + len <= |src|
    ensures Row(Packed(src, srcStep, len, n), len, len, i) == Row(src, srcStep, len, i)
    decreases n
  {
    RowFits(i, n, len, len);
    RowFits(i, n, srcStep, len);
    RowFits(n - 1, n, srcStep, len);
    var q := Packed(src, srcStep, len, n - 1);
    var row := Row(src, srcStep, len, n - 1);
    var p := q + row;
    assert Packed(src, srcStep, len, n) == p;
    if i < n - 1 {
      RowFits(i, n - 1, len, len);
      PackedRowAt(src, srcStep, len, n - 1, i);
      assert p[..|q|] == q[..|q|];
      SliceInPrefix(p, q, |q|, Offset(i, len), Offset(i, len) + len);
    } else {
      assert p[|q|..|q| + len] == row;
    }
  }

  lemma PackedRows(src: seq<byte>, srcStep: nat, len: nat, n: nat)
    requires Fits(n, srcStep, len, |src|)
    ensures RowsAgree(Packed(src, srcStep, len, n), len, src, srcStep, len, n)
  {
    forall i | 0 <= i < n
      ensures (RowFits(i, n, len, len); RowFits(i, n, srcStep, len);
               Row(Packed(src, srcStep, len, n), len, len, i) == Row(src, srcStep, len, i))
    {
      PackedRowAt(src, srcStep, len, n, i);
    }
  }

  /** Offsets grow with the row index. */
  lemma {:induction false} OffsetMono(i: nat, j: nat, step: nat)
    requires i <= j
    ensures Offset(i, step) <= Offset(j, step)
    decreases j
  {
    if i < j {
      OffsetMono(i, j - 1, step);
    }
  }

  /** Byte `k` lies in none of the first `n` rows. */
  predicate OutsideRows(k: nat, step: nat, len: nat, n: nat) {
    n == 0 || (!(Offset(n - 1, step) <= k < Offset(n - 1, step) + len) && OutsideRows(k, step, len, n - 1))
  }

  /** Bytes in no copied row keep their value. */
  lemma {:induction false} CopyRowsOutside(dst: seq<byte>, dstStep: nat, src: seq<byte>, srcStep: nat, len: nat, n: nat, k: nat)
    requires Fits(n, dstStep, len, |dst|) && Fits(n, srcStep, len, |src|)
    requires k < |dst| && OutsideRows(k, dstStep, len, n)
    ensures CopyRows(dst, dstStep, src, srcStep, len, n)[k] == dst[k]
    decreases n
  {
    if n > 0 {
      RowFits(n - 1, n, dstStep, len);
      RowFits(n - 1, n, srcStep, len);
      CopyRowsOutside(dst, dstStep, src, srcStep, len, n - 1, k);
    }
  }

  /** Padding bytes lie in no row. */
  lemma {:induction false} GapOutsideRows(k: nat, step: nat, len: nat, n: nat, i: nat)
    requires len <= step && Offset(i, step) + len <= k < Offset(i + 1, step)
    ensures OutsideRows(k, step, len, n)
    decreases n
  {
    if n > 0 {
      GapOutsideRows(k, step, len, n - 1, i);
      if n - 1 < i {
        OffsetMono(n, i, step);
      } else if n - 1 > i {
        OffsetMono(i + 1, n - 1, step);
      }
    }
  }

  /** Bytes after the last row lie in no row. */
  lemma {:induction false} TailOutsideRows(k: nat, step: nat, len: nat, n: nat)
    requires len <= step && Offset(n, step) <= k
    ensures OutsideRows(k, step, len, n)
    decreases n
  {
    if n > 0 {
      TailOutsideRows(k, step, len, n - 1);
    }
  }

  /** Byte `t` of row `i < n` is what the row loop copied there. */
  lemma {:induction false} CopyRowsByteAt(dst: seq<byte>, dstStep: nat, src: seq<byte>, srcStep: nat, len: nat, n: nat, i: nat, t: nat)
    requires Fits(n, dstStep, len, |dst|) && Fits(n, srcStep, len, |src|) && i < n && t < len
    ensures Offset(i, dstStep) + t < |dst| && Offset(i, srcStep) + t < |src|
    ensures CopyRows(dst, dstStep, src, srcStep, len, n)[Offset(i, dstStep) + t] == src[Offset(i, srcStep) + t]
    decreases n
  {
    RowFits(i, n, dstStep, len);
    RowFits(i, n, srcStep, len);
    RowFits(n - 1, n, dstStep, len);
    RowFits(n - 1, n, srcStep, len);
    if i < n - 1 {
      RowFits(i, n - 1, dstStep, len);
      CopyRowsByteAt(dst, dstStep, src, srcStep, len, n - 1, i, t);
    }
  }

  /** Row `i < n` is exactly what the row loop copied. */
  lemma CopyRowsRowAt(dst: seq<byte>, dstStep: nat, src: seq<byte>, srcStep: nat, len: nat, n: nat, i: nat)
    requires Fits(n, dstStep, len, |dst|) && Fits(n, srcStep, len, |src|) && i < n
    ensures Offset(i, dstStep) + len <= |dst| && Offset(i, srcStep) + len <= |src|
    ensures Row(CopyRows(dst, dstStep, src, srcStep, len, n), dstStep, len, i) == Row(src, srcStep, len, i)
  {
    RowFits(i, n, dstStep, len);
    RowFits(i, n, srcStep, len);
    var r := CopyRows(dst, dstStep, src, srcStep, len, n);
    forall t | 0 <= t < len
      ensures Row(r, dstStep, len, i)[t] == Row(src, srcStep, len, i)[t]
    {
      CopyRowsByteAt(dst, dstStep, src, srcStep, len, n, i, t);
    }
  }

  lemma CopyRowsRows(dst: seq<byte>, dstStep: nat, src: seq<byte>, srcStep: nat, len: nat, n: nat)
    requires Fits(n, dstStep, len, |dst|) && Fits(n, srcStep, len, |src|)
    ensures RowsAgree(CopyRows(dst, dstStep, src, srcStep, len, n), dstStep, src, srcStep, len, n)
  {
    forall i | 0 <= i < n
      ensures (RowFits(i, n, dstStep, len); RowFits(i, n, srcStep, len);
               Row(CopyRows(dst, dstStep, src, srcStep, len, n), dstStep, len, i) == Row(src, srcStep, len, i))
    {
      CopyRowsRowAt(dst, dstStep, src, srcStep, len, n, i);
    }
  }

  /** The row loop leaves the padding after row `i` alone. */
  lemma CopyRowsGapAt(dst: seq<byte>, dstStep: nat, src: seq<byte>, srcStep: nat, len: nat, n: nat, i: nat)
    requires Fits(n, dstStep, len, |dst|) && Fits(n, srcStep, len, |src|) && i < n
    ensures Offset(i, dstStep) + len <= Offset(i + 1, dstStep) <= |dst|
    ensures Gap(CopyRows(dst, dstStep, src, srcStep, len, n), dstStep, len, i) == Gap(dst, dstStep, len, i)
  {
    RowFits(i, n, dstStep, len);
    var r := CopyRows(dst, dstStep, src, srcStep, len, n);
    var lo := Offset(i, dstStep) + len;
    forall t | 0 <= t < Offset(i + 1, dstStep) - lo
      ensures Gap(r, dstStep, len, i)[t] == Gap(dst, dstStep, len, i)[t]
    {
      GapOutsideRows(lo + t, dstStep, len, n, i);
      CopyRowsOutside(dst, dstStep, src, srcStep, len, n, lo + t);
    }
  }

  /** The row loop leaves the bytes after the last row alone. */
  lemma CopyRowsTail(dst: seq<byte>, dstStep: nat, src: seq<byte>, srcStep: nat, len: nat, n: nat)
    requires Fits(n, dstStep, len, |dst|) && Fits(n, srcStep, len, |src|)
    ensures CopyRows(dst, dstStep, src, srcStep, len, n)[Offset(n, dstStep)..] == dst[Offset(n, dstStep)..]
  {
    var r := CopyRows(dst, dstStep, src, srcStep, len, n);
    var lo := Offset(n, dstStep);
    forall t | 0 <= t < |dst| - lo
      ensures r[lo..][t] == dst[lo..][t]
    {
      TailOutsideRows(lo + t, dstStep, len, n);
      CopyRowsOutside(dst, dstStep, src, srcStep, len, n, lo + t);
    }
  }

  /** The row loop leaves the padding after each row alone. */
  lemma CopyRowsKeepsPadding(dst: seq<byte>, dstStep: nat, src: seq<byte>, srcStep: nat, len: nat, n: nat)
    requires Fits(n, dstStep, len, |dst|) && Fits(n, srcStep, len, |src|)
    ensures GapsAgree(CopyRows(dst, dstStep, src, srcStep, len, n), dst, dstStep, len, n)
  {
    forall i | 0 <= i < n
      ensures (RowFits(i, n, dstStep, len);
               Gap(CopyRows(dst, dstStep, src, srcStep, len, n), dstStep, len, i) == Gap(dst, dstStep, len, i))
    {
      CopyRowsGapAt(dst, dstStep, src, srcStep, len, n, i);
    }
  }

  /** Inside the rows, copying into a dense buffer is packing. */
  lemma {:induction false} CopiedByteDense(dst: seq<byte>, len: nat, src: seq<byte>, srcStep: nat, n: nat, k: nat)
    requires Fits(n, len, len, |dst|) && Fits(n, srcStep, len, |src|) && k < Offset(n, len)
    ensures CopiedByte(dst, len, src, srcStep, len, n, k) == Packed(src, srcStep, len, n)[k]
    decreases n
  {
    RowFits(n - 1, n, len, len);
    RowFits(n - 1, n, srcStep, len);
    if k < Offset(n - 1, len) {
      CopiedByteDense(dst, len, src, srcStep, n - 1, k);
    }
  }

  /** Copying rows into a dense buffer yields the packed rows, followed by what was after them. */
  lemma CopyRowsDense(dst: seq<byte>, len: nat, src: seq<byte>, srcStep: nat, n: nat)
    requires Fits(n, len, len, |dst|) && Fits(n, srcStep, len, |src|)
    ensures CopyRows(dst, len, src, srcStep, len, n) == Packed(src, srcStep, len, n) + dst[Offset(n, len)..]
  {
    var r := CopyRows(dst, len, src, srcStep, len, n);
    var p := Packed(src, srcStep, len, n);
    forall k | 0 <= k < |dst|
      ensures r[k] == (p + dst[Offset(n, len)..])[k]
    {
      if k < Offset(n, len) {
        CopiedByteDense(dst, len, src, srcStep, n, k);
      } else {
        TailOutsideRows(k, len, len, n);
        CopyRowsOutside(dst, len, src, srcStep, len, n, k);
      }
    }
  }

  /** Packing a buffer that is already dense gives back its first `n` rows unchanged. */
  lemma {:induction false} PackedDense(s: seq<byte>, len: nat, n: nat)
    requires Fits(n, len, len, |s|)
    ensures Packed(s, len, len, n) == s[..Offset(n, len)]
    decreases n
  {
    if n > 0 {
      RowFits(n - 1, n, len, len);
      PackedDense(s, len, n - 1);
      assert s[..Offset(n, len)] == s[..Offset(n - 1, len)] + s[Offset(n - 1, len) .. Offset(n, len)];
    }
  }

  /** Packing reads nothing but the rows. */
  lemma {:induction false} PackedReadsOnlyRows(a: seq<byte>, aStep: nat, b: seq<byte>, bStep: nat, len: nat, n: nat)
    requires Fits(n, aStep, len, |a|) && Fits(n, bStep, len, |b|)
    requires RowsAgree(a, aStep, b, bStep, len, n)
    ensures Packed(a, aStep, len, n) == Packed(b, bStep, len, n)
    decreases n
  {
    if n > 0 {
      RowFits(n - 1, n, aStep, len);
      RowFits(n - 1, n, bStep, len);
      forall i | 0 <= i < n - 1
        ensures (RowFits(i, n - 1, aStep, len); RowFits(i, n - 1, bStep, len);
                 Row(a, aStep, len, i) == Row(b, bStep, len, i))
      {
        RowFits(i, n, aStep, len);
        RowFits(i, n, bStep, len);
      }
      PackedReadsOnlyRows(a, aStep, b, bStep, len, n - 1);
    }
  }

  /**
   * Decode then encode: copying packed rows into a strided buffer and packing that
   * buffer again gives back the packed rows.
   */
  lemma UnpackThenPack(base: seq<byte>, step: nat, raw: seq<byte>, len: nat, n: nat)
    requires Fits(n, step, len, |base|) && Fits(n, len, len, |raw|)
    ensures Packed(CopyRows(base, step, raw, len, len, n), step, len, n) == raw[..Offset(n, len)]
  {
    var c := CopyRows(base, step, raw, len, len, n);
    CopyRowsRows(base, step, raw, len, len, n);
    PackedReadsOnlyRows(c, step, raw, len, len, n);
    PackedDense(raw, len, n);
  }

  /**
   * Encode then decode: packing the rows of `src` and copying them into any buffer of
   * any step reproduces every row of `src`.
   */
  lemma PackThenUnpack(src: seq<byte>, srcStep: nat, base: seq<byte>, dstStep: nat, len: nat, n: nat)
    requires Fits(n, srcStep, len, |src|) && Fits(n, dstStep, len, |base|)
    ensures RowsAgree(CopyRows(base, dstStep, Packed(src, srcStep, len, n), len, len, n), dstStep, src, srcStep, len, n)
  {
    var p := Packed(src, srcStep, len, n);
    var c := CopyRows(base, dstStep, p, len, len, n);
    CopyRowsRows(base, dstStep, p, len, len, n);
    PackedRows(src, srcStep, len, n);
    forall i | 0 <= i < n
      ensures (RowFits(i, n, dstStep, len); RowFits(i, n, srcStep, len);
               Row(c, dstStep, len, i) == Row(src, srcStep, len, i))
    {
      RowFits(i, n, dstStep, len);
      RowFits(i, n, srcStep, len);
      RowFits(i, n, len, len);
      assert Row(c, dstStep, len, i) == Row(p, len, len, i);
    }
  }

  /** For a dense buffer the raw round trip is exact, whatever the buffer held before. */
  lemma DenseRoundTrip(src: seq<byte>, base: seq<byte>, len: nat, n: nat)
    requires |src| == Offset(n, len) && |base| == Offset(n, len)
    ensures CopyRows(base, len, Packed(src, len, len, n), len, len, n) == src
  {
    var p := Packed(src, len, len, n);
    PackedDense(src, len, n);
    CopyRowsDense(base, len, p, len, n);
    PackedDense(p, len, n);
  }
}

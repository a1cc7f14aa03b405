/** Images turned and flipped in place (libfprint: img.c, fpc1150.c): rows of `w` bytes, one after the other. */
module FpImage {
  import opened Arithmetic
  import opened Bytes

  /** The index of the pixel in row `r`, column `c`. */
  function At(w: nat, r: int, c: int): int {
    r * w + c
  }

  function Row(w: nat, k: nat): (r: nat) {
    if w == 0 then 0 else k / w
  }

  function Col(w: nat, k: nat): (c: nat) {
    if w == 0 then 0 else k % w
  }

  function Px(s: seq<byte>, i: int): byte {
    if 0 <= i < |s| then s[i] else 0
  }

  // ---- Positions

  lemma InImage(w: nat, h: nat, r: nat, c: nat)
    requires r < h && c < w
    ensures 0 <= At(w, r, c) < w * h
  {
    MulMonotone(r + 1, h, w);
    assert (r + 1) * w == r * w + w;
  }

  lemma Position(w: nat, r: nat, c: nat)
    requires c < w
    ensures At(w, r, c) >= 0 && Row(w, At(w, r, c)) == r && Col(w, At(w, r, c)) == c
  {
    QuotientIs(At(w, r, c), w, r, c);
  }

  lemma HasPosition(w: nat, h: nat, k: nat)
    requires k < w * h
    ensures Row(w, k) < h && Col(w, k) < w && At(w, Row(w, k), Col(w, k)) == k
  {
    if w > 0 && k / w >= h {
      MulMonotone(h, k / w, w);
    }
  }

  /** Images are equal when all their pixels are. */
  lemma SameImage(w: nat, h: nat, a: seq<byte>, b: seq<byte>)
    requires |a| == |b| == w * h
    requires forall r, c :: 0 <= r < h && 0 <= c < w ==> Px(a, At(w, r, c)) == Px(b, At(w, r, c))
    ensures a == b
  {
    hide At, Row, Col;
    forall k | 0 <= k < w * h ensures a[k] == b[k] {
      HasPosition(w, h, k);
      assert Px(a, At(w, Row(w, k), Col(w, k))) == a[k];
    }
  }

  // ---- What the operations mean

  /** Upside down. */
  function VFlip(s: seq<byte>, w: nat, h: nat): (t: seq<byte>)
    ensures |t| == w * h
  {
    seq(w * h, k requires 0 <= k < w * h => Px(s, At(w, h - 1 - Row(w, k), Col(w, k))))
  }

  /** Left and right exchanged. */
  function HFlip(s: seq<byte>, w: nat, h: nat): (t: seq<byte>)
    ensures |t| == w * h
  {
    seq(w * h, k requires 0 <= k < w * h => Px(s, At(w, Row(w, k), w - 1 - Col(w, k))))
  }

  function Inverted(s: seq<byte>): (t: seq<byte>)
    ensures |t| == |s|
  {
    seq(|s|, k requires 0 <= k < |s| => 255 - s[k])
  }

  /** A quarter turn counter-clockwise: `h` wide, `w` high. */
  function Rotated(s: seq<byte>, w: nat, h: nat): (t: seq<byte>)
    ensures |t| == w * h
  {
    seq(w * h, k requires 0 <= k < w * h => Px(s, At(w, Col(h, k), w - 1 - Row(h, k))))
  }

  lemma VFlipAt(s: seq<byte>, w: nat, h: nat, r: nat, c: nat)
    requires r < h && c < w
    ensures Px(VFlip(s, w, h), At(w, r, c)) == Px(s, At(w, h - 1 - r, c))
  {
    InImage(w, h, r, c);
    Position(w, r, c);
  }

  lemma HFlipAt(s: seq<byte>, w: nat, h: nat, r: nat, c: nat)
    requires r < h && c < w
    ensures Px(HFlip(s, w, h), At(w, r, c)) == Px(s, At(w, r, w - 1 - c))
  {
    InImage(w, h, r, c);
    Position(w, r, c);
  }

  /** The pixel at row `r`, column `c` comes from row `c`, column `w - 1 - r`. */
  lemma RotatedAt(s: seq<byte>, w: nat, h: nat, r: nat, c: nat)
    requires r < w && c < h
    ensures Px(Rotated(s, w, h), At(h, r, c)) == Px(s, At(w, c, w - 1 - r))
  {
    InImage(h, w, r, c);
    Position(h, r, c);
  }

  lemma InvertedAt(s: seq<byte>, k: int)
    requires 0 <= k < |s|
    ensures Px(Inverted(s), k) == 255 - Px(s, k)
  {
  }

  // ---- Laws

  /** Flips and inversion undo themselves. */
  lemma FlippedTwice(s: seq<byte>, w: nat, h: nat)
    requires |s| == w * h
    ensures VFlip(VFlip(s, w, h), w, h) == s
    ensures HFlip(HFlip(s, w, h), w, h) == s
    ensures Inverted(Inverted(s)) == s
  {
    hide VFlip, HFlip, At, Px;
    forall r, c | 0 <= r < h && 0 <= c < w
      ensures Px(VFlip(VFlip(s, w, h), w, h), At(w, r, c)) == Px(s, At(w, r, c))
      ensures Px(HFlip(HFlip(s, w, h), w, h), At(w, r, c)) == Px(s, At(w, r, c))
    {
      VFlipAt(VFlip(s, w, h), w, h, r, c);
      VFlipAt(s, w, h, h - 1 - r, c);
      HFlipAt(HFlip(s, w, h), w, h, r, c);
      HFlipAt(s, w, h, r, w - 1 - c);
    }
    SameImage(w, h, VFlip(VFlip(s, w, h), w, h), s);
    SameImage(w, h, HFlip(HFlip(s, w, h), w, h), s);
  }

  /** Flips and inversion commute. */
  lemma FlipsCommute(s: seq<byte>, w: nat, h: nat)
    requires |s| == w * h
    ensures VFlip(HFlip(s, w, h), w, h) == HFlip(VFlip(s, w, h), w, h)
    ensures VFlip(Inverted(s), w, h) == Inverted(VFlip(s, w, h))
    ensures HFlip(Inverted(s), w, h) == Inverted(HFlip(s, w, h))
  {
    hide VFlip, HFlip, Inverted, At, Px;
    forall r, c | 0 <= r < h && 0 <= c < w
      ensures Px(VFlip(HFlip(s, w, h), w, h), At(w, r, c)) == Px(HFlip(VFlip(s, w, h), w, h), At(w, r, c))
      ensures Px(VFlip(Inverted(s), w, h), At(w, r, c)) == Px(Inverted(VFlip(s, w, h)), At(w, r, c))
      ensures Px(HFlip(Inverted(s), w, h), At(w, r, c)) == Px(Inverted(HFlip(s, w, h)), At(w, r, c))
    {
      VFlipAt(HFlip(s, w, h), w, h, r, c);
      HFlipAt(s, w, h, h - 1 - r, c);
      HFlipAt(VFlip(s, w, h), w, h, r, c);
      VFlipAt(s, w, h, r, w - 1 - c);
      VFlipAt(Inverted(s), w, h, r, c);
      VFlipAt(s, w, h, r, c);
      HFlipAt(Inverted(s), w, h, r, c);
      HFlipAt(s, w, h, r, c);
      InImage(w, h, r, c);
      InImage(w, h, h - 1 - r, c);
      InImage(w, h, r, w - 1 - c);
      InvertedAt(VFlip(s, w, h), At(w, r, c));
      InvertedAt(HFlip(s, w, h), At(w, r, c));
      InvertedAt(s, At(w, h - 1 - r, c));
      InvertedAt(s, At(w, r, w - 1 - c));
    }
    SameImage(w, h, VFlip(HFlip(s, w, h), w, h), HFlip(VFlip(s, w, h), w, h));
    SameImage(w, h, VFlip(Inverted(s), w, h), Inverted(VFlip(s, w, h)));
    SameImage(w, h, HFlip(Inverted(s), w, h), Inverted(HFlip(s, w, h)));
  }

  /** Two quarter turns are a half turn, so four are none. */
  lemma RotatedTwice(s: seq<byte>, w: nat, h: nat)
    requires |s| == w * h
    ensures Rotated(Rotated(s, w, h), h, w) == VFlip(HFlip(s, w, h), w, h)
  {
    hide Rotated, VFlip, HFlip, At, Px;
    forall r, c | 0 <= r < h && 0 <= c < w
      ensures Px(Rotated(Rotated(s, w, h), h, w), At(w, r, c)) == Px(VFlip(HFlip(s, w, h), w, h), At(w, r, c))
    {
      RotatedAt(Rotated(s, w, h), h, w, r, c);
      RotatedAt(s, w, h, c, h - 1 - r);
      VFlipAt(HFlip(s, w, h), w, h, r, c);
      HFlipAt(s, w, h, h - 1 - r, c);
    }
    SameImage(w, h, Rotated(Rotated(s, w, h), h, w), VFlip(HFlip(s, w, h), w, h));
  }

  lemma FourQuarterTurns(s: seq<byte>, w: nat, h: nat)
    requires |s| == w * h
    ensures Rotated(Rotated(Rotated(Rotated(s, w, h), h, w), w, h), h, w) == s
  {
    hide Rotated, VFlip, HFlip;
    var half := VFlip(HFlip(s, w, h), w, h);
    RotatedTwice(s, w, h);
    RotatedTwice(half, w, h);
    FlipsCommute(half, w, h);
    FlipsCommute(s, w, h);
    FlippedTwice(HFlip(s, w, h), w, h);
    FlippedTwice(s, w, h);
  }

  /** An image above its own mirror image is its own mirror image. */
  lemma AssembledIsItsOwnMirror(s: seq<byte>, w: nat, h: nat)
    requires |s| == w * h
    ensures var t := s + VFlip(s, w, h); |t| == w * (2 * h) && VFlip(t, w, 2 * h) == t
  {
    hide VFlip, At, Px;
    var t := s + VFlip(s, w, h);
    forall r, c | 0 <= r < 2 * h && 0 <= c < w ensures Px(VFlip(t, w, 2 * h), At(w, r, c)) == Px(t, At(w, r, c)) {
      VFlipAt(t, w, 2 * h, r, c);
      AssembledAt(s, w, h, r, c);
      AssembledAt(s, w, h, 2 * h - 1 - r, c);
    }
    SameImage(w, 2 * h, VFlip(t, w, 2 * h), t);
  }

  lemma AssembledAt(s: seq<byte>, w: nat, h: nat, r: nat, c: nat)
    requires |s| == w * h && r < 2 * h && c < w
    ensures Px(s + VFlip(s, w, h), At(w, r, c)) == Px(s, At(w, if r < h then r else 2 * h - 1 - r, c))
  {
    hide VFlip;
    if r < h {
      InImage(w, h, r, c);
    } else {
      VFlipAt(s, w, h, r - h, c);
      InImage(w, h, r - h, c);
      assert At(w, r, c) == w * h + At(w, r - h, c);
    }
  }

  // ---- The loops

  /** Whether `t` is `s` with the `n` bytes at `to` taken from `from` in `src`. */
  ghost predicate Copied(s: seq<byte>, t: seq<byte>, to: nat, src: seq<byte>, from: nat, n: nat) {
    && |s| == |t| && to + n <= |t| && from + n <= |src|
    && forall k :: 0 <= k < |t| ==> t[k] == if to <= k < to + n then src[k - to + from] else s[k]
  }

  /** `memcpy`. */
  method Memcpy(dst: array<byte>, to: nat, src: array<byte>, from: nat, n: nat)
    requires to + n <= dst.Length && from + n <= src.Length
    requires dst != src || to + n <= from || from + n <= to
    modifies dst
    ensures Copied(old(dst[..]), dst[..], to, old(src[..]), from, n)
  {
    for j := 0 to n
      invariant forall k :: 0 <= k < dst.Length ==> dst[k] == old(if to <= k < to + j then src[k - to + from] else dst[k])
    {
      dst[to + j] := src[from + j];
    }
  }

  /** The position that position `k` takes its byte from when the `w` bytes at `a` and at `b` are exchanged. */
  function Partner(a: nat, b: nat, w: nat, k: int): int {
    if a <= k < a + w then k - a + b else if b <= k < b + w then k - b + a else k
  }

  ghost predicate Swapped(s: seq<byte>, t: seq<byte>, a: nat, b: nat, w: nat) {
    && |s| == |t| && a + w <= b && b + w <= |s|
    && forall k :: 0 <= k < |s| ==> 0 <= Partner(a, b, w, k) < |s| && t[k] == s[Partner(a, b, w, k)]
  }

  /** The row exchange of `vflip`, through a buffer. */
  method SwapRows(data: array<byte>, a: nat, b: nat, w: nat)
    requires a + w <= b && b + w <= data.Length
    modifies data
    ensures Swapped(old(data[..]), data[..], a, b, w)
  {
    hide Copied, Swapped;
    ghost var s := data[..];
    var rowbuf := new byte[w];
    ghost var empty := rowbuf[..];
    Memcpy(rowbuf, 0, data, a, w);
    Memcpy(data, a, data, b, w);
    ghost var t := data[..];
    Memcpy(data, b, rowbuf, 0, w);
    CopiesSwap(s, empty, rowbuf[..], t, data[..], a, b, w);
  }

  lemma CopiesSwap(s: seq<byte>, empty: seq<byte>, row: seq<byte>, t: seq<byte>, u: seq<byte>, a: nat, b: nat, w: nat)
    requires a + w <= b && b + w <= |s|
    requires Copied(empty, row, 0, s, a, w) && Copied(s, t, a, s, b, w) && Copied(t, u, b, row, 0, w)
    ensures Swapped(s, u, a, b, w)
  {
  }

  /** The row exchange of `flip_v`, pixel by pixel. */
  method SwapPixels(data: array<byte>, a: nat, b: nat, w: nat)
    requires a + w <= b && b + w <= data.Length
    modifies data
    ensures Swapped(old(data[..]), data[..], a, b, w)
  {
    ghost var s := data[..];
    var idx1, idx2 := a, b;
    for x := 0 to w
      invariant idx1 == a + x && idx2 == b + x
      invariant forall k :: 0 <= k < data.Length ==> 0 <= Partner(a, b, x, k) < |s| && data[k] == s[Partner(a, b, x, k)]
    {
      assert Partner(a, b, x, idx1) == idx1 && Partner(a, b, x, idx2) == idx2;
      data[idx1], data[idx2] := data[idx2], data[idx1];
      assert forall k :: 0 <= k < |s| && k != idx1 && k != idx2 ==> Partner(a, b, x + 1, k) == Partner(a, b, x, k);
      idx1, idx2 := idx1 + 1, idx2 + 1;
    }
  }

  /** The image with its `i` outermost rows on each side exchanged. */
  function PartlyFlipped(s: seq<byte>, w: nat, h: nat, i: nat): (t: seq<byte>)
    requires |s| >= w * h
    ensures |t| == |s|
  {
    seq(|s|, k requires 0 <= k < |s| =>
      if k < w * h && (Row(w, k) < i || Row(w, k) >= h - i) then VFlip(s[..w * h], w, h)[k] else s[k])
  }

  lemma RowRange(w: nat, h: nat, r: nat, k: nat)
    requires k < w * h && r < h
    ensures Row(w, k) == r <==> At(w, r, 0) <= k < At(w, r, 0) + w
    ensures Row(w, k) == r ==> k == At(w, r, 0) + Col(w, k)
  {
    HasPosition(w, h, k);
    if Row(w, k) < r {
      MulMonotone(Row(w, k) + 1, r, w);
    } else if Row(w, k) > r {
      MulMonotone(r + 1, Row(w, k), w);
    }
  }

  lemma SwapOffsets(w: nat, h: nat, i: nat)
    requires i < h / 2
    ensures i * w == w * i == At(w, i, 0) && w * h - w * (i + 1) == w * (h - i - 1) == At(w, h - 1 - i, 0)
    ensures 0 <= At(w, i, 0) && At(w, i, 0) + w <= At(w, h - 1 - i, 0) && At(w, h - 1 - i, 0) + w == w * h - w * i <= w * h
  {
    MulMonotone(i + 1, h - 1 - i, w);
    assert w * h - w * (i + 1) == (h - 1 - i) * w;
    assert (i + 1) * w == i * w + w;
  }

  /** Exchanging one more pair of rows. */
  lemma FlipStep(s: seq<byte>, t: seq<byte>, w: nat, h: nat, i: nat)
    requires |s| >= w * h && i < h / 2
    requires At(w, i, 0) >= 0 && At(w, h - 1 - i, 0) >= 0
    requires Swapped(PartlyFlipped(s, w, h, i), t, At(w, i, 0), At(w, h - 1 - i, 0), w)
    ensures t == PartlyFlipped(s, w, h, i + 1)
  {
    var a, b := At(w, i, 0), At(w, h - 1 - i, 0);
    forall k | 0 <= k < |s| ensures t[k] == PartlyFlipped(s, w, h, i + 1)[k] {
      if k < w * h {
        FlipStepAt(s, t, w, h, i, k);
      } else {
        SwapOffsets(w, h, i);
      }
    }
  }

  lemma FlipStepAt(s: seq<byte>, t: seq<byte>, w: nat, h: nat, i: nat, k: nat)
    requires |s| >= w * h && i < h / 2 && k < w * h
    requires At(w, i, 0) >= 0 && At(w, h - 1 - i, 0) >= 0
    requires Swapped(PartlyFlipped(s, w, h, i), t, At(w, i, 0), At(w, h - 1 - i, 0), w)
    ensures t[k] == PartlyFlipped(s, w, h, i + 1)[k]
  {
    hide VFlip, Row, Col;
    var r, c := Row(w, k), Col(w, k);
    HasPosition(w, h, k);
    RowRange(w, h, i, k);
    RowRange(w, h, h - 1 - i, k);
    if r == i || r == h - 1 - i {
      InImage(w, h, h - 1 - r, c);
      Position(w, h - 1 - r, c);
      VFlipAt(s[..w * h], w, h, r, c);
    }
  }

  lemma FlippedWhole(s: seq<byte>, w: nat, h: nat)
    requires |s| >= w * h
    ensures PartlyFlipped(s, w, h, 0) == s
    ensures PartlyFlipped(s, w, h, h / 2) == VFlip(s[..w * h], w, h) + s[w * h..]
  {
    hide VFlip, Row;
    var v := VFlip(s[..w * h], w, h);
    forall k | 0 <= k < w * h ensures PartlyFlipped(s, w, h, 0)[k] == s[k] && PartlyFlipped(s, w, h, h / 2)[k] == v[k] {
      HasPosition(w, h, k);
      if h / 2 <= Row(w, k) < h - h / 2 {
        VFlipAt(s[..w * h], w, h, Row(w, k), Col(w, k));
      }
    }
  }

  /** `vflip`. */
  method VFlipInPlace(data: array<byte>, w: nat, h: nat)
    requires w * h <= data.Length
    modifies data
    ensures data[..] == VFlip(old(data[..w * h]), w, h) + old(data[w * h..])
  {
    hide VFlip, PartlyFlipped, Swapped, At;
    ghost var s := data[..];
    assert s[..w * h] == data[..w * h] && s[w * h..] == data[w * h..];
    FlippedWhole(s, w, h);
    for i := 0 to h / 2
      invariant data[..] == PartlyFlipped(s, w, h, i)
    {
      SwapOffsets(w, h, i);
      var offset, swapOffset := i * w, w * h - w * (i + 1);
      SwapRows(data, offset, swapOffset, w);
      FlipStep(s, data[..], w, h, i);
    }
  }

  /** `flip_v`. */
  method FlipV(data: array<byte>, w: nat, h: nat)
    requires w * h <= data.Length
    modifies data
    ensures data[..] == VFlip(old(data[..w * h]), w, h) + old(data[w * h..])
  {
    hide VFlip, PartlyFlipped, Swapped, At;
    ghost var s := data[..];
    assert s[..w * h] == data[..w * h] && s[w * h..] == data[w * h..];
    FlippedWhole(s, w, h);
    var middle := h / 2;
    for y := 0 to middle
      invariant data[..] == PartlyFlipped(s, w, h, y)
    {
      SwapOffsets(w, h, y);
      SwapPixels(data, w * y, w * (h - y - 1), w);
      FlipStep(s, data[..], w, h, y);
    }
  }

  function Mirror(offset: nat, w: nat, k: int): int {
    offset + w - 1 - (k - offset)
  }

  /** Whether `t` is `s` with the `w` bytes at `offset` in reverse. */
  ghost predicate RowReversed(s: seq<byte>, t: seq<byte>, offset: nat, w: nat) {
    && |s| == |t| && offset + w <= |s|
    && forall k :: 0 <= k < |s| ==> t[k] == if offset <= k < offset + w then s[Mirror(offset, w, k)] else s[k]
  }

  /** One row of `hflip`. */
  method ReverseRow(data: array<byte>, offset: nat, w: nat)
    requires offset + w <= data.Length
    modifies data
    ensures RowReversed(old(data[..]), data[..], offset, w)
  {
    ghost var s := data[..];
    var rowbuf := new byte[w];
    Memcpy(rowbuf, 0, data, offset, w);
    for j := 0 to w
      invariant rowbuf[..] == s[offset..offset + w]
      invariant forall k :: 0 <= k < data.Length ==>
        data[k] == if offset <= k < offset + j then s[Mirror(offset, w, k)] else s[k]
    {
      data[offset + j] := rowbuf[w - j - 1];
    }
  }

  /** `hflip`. */
  method HFlipInPlace(data: array<byte>, w: nat, h: nat)
    requires w * h <= data.Length
    modifies data
    ensures data[..] == HFlip(old(data[..w * h]), w, h) + old(data[w * h..])
  {
    hide HFlip, PartlyHFlipped, RowReversed;
    ghost var s := data[..];
    assert s[..w * h] == data[..w * h] && s[w * h..] == data[w * h..];
    HFlippedWhole(s, w, h);
    for i := 0 to h
      invariant data[..] == PartlyHFlipped(s, w, h, i)
    {
      RowOffset(w, h, i);
      ReverseRow(data, i * w, w);
      HFlipStep(s, data[..], w, h, i);
    }
  }

  /** The image with its first `i` rows reversed. */
  function PartlyHFlipped(s: seq<byte>, w: nat, h: nat, i: nat): (t: seq<byte>)
    requires |s| >= w * h
    ensures |t| == |s|
  {
    seq(|s|, k requires 0 <= k < |s| => if k < w * h && Row(w, k) < i then HFlip(s[..w * h], w, h)[k] else s[k])
  }

  lemma HFlippedWhole(s: seq<byte>, w: nat, h: nat)
    requires |s| >= w * h
    ensures PartlyHFlipped(s, w, h, 0) == s
    ensures PartlyHFlipped(s, w, h, h) == HFlip(s[..w * h], w, h) + s[w * h..]
  {
    hide HFlip, Row;
    var f := HFlip(s[..w * h], w, h);
    forall k | 0 <= k < w * h ensures PartlyHFlipped(s, w, h, h)[k] == f[k] {
      HasPosition(w, h, k);
    }
  }

  lemma HFlipStep(s: seq<byte>, t: seq<byte>, w: nat, h: nat, i: nat)
    requires |s| >= w * h && i < h && i * w >= 0
    requires RowReversed(PartlyHFlipped(s, w, h, i), t, i * w, w)
    ensures t == PartlyHFlipped(s, w, h, i + 1)
  {
    hide HFlip, Row, Col;
    RowOffset(w, h, i);
    forall k | 0 <= k < |s| ensures t[k] == PartlyHFlipped(s, w, h, i + 1)[k] {
      if k < w * h {
        HFlipRow(s, w, h, i, k);
      }
    }
  }

  lemma RowOffset(w: nat, h: nat, i: nat)
    requires i < h
    ensures 0 <= i * w == At(w, i, 0) && i * w + w <= w * h
  {
    MulMonotone(i + 1, h, w);
    assert (i + 1) * w == i * w + w;
  }

  /** Where a pixel of row `i` comes from. */
  lemma HFlipRow(s: seq<byte>, w: nat, h: nat, i: nat, k: nat)
    requires w * h <= |s| && i < h && k < w * h
    ensures Row(w, k) == i <==> i * w <= k < i * w + w
    ensures Row(w, k) == i ==>
      var from := Mirror(i * w, w, k);
      0 <= from < w * h && Row(w, from) == i && HFlip(s[..w * h], w, h)[k] == s[from]
  {
    hide HFlip, Row, Col;
    RowRange(w, h, i, k);
    HasPosition(w, h, k);
    if Row(w, k) == i {
      var c := Col(w, k);
      InImage(w, h, i, w - 1 - c);
      Position(w, i, w - 1 - c);
      HFlipAt(s[..w * h], w, h, i, c);
    }
  }

  /** `invert_colors`. */
  method InvertColors(data: array<byte>, w: nat, h: nat)
    requires w * h <= data.Length
    modifies data
    ensures data[..] == Inverted(old(data[..w * h])) + old(data[w * h..])
  {
    var dataLen := w * h;
    for i := 0 to dataLen
      invariant forall k :: 0 <= k < data.Length ==> data[k] == if k < i then 255 - old(data[k]) else old(data[k])
    {
      data[i] := 0xff - data[i];
    }
  }

  /** `rot90ccw`: the destination is written from its last byte down to its first, each once. */
  method Rot90Ccw(src: array<byte>, dst: array<byte>, width: nat, height: nat)
    requires src != dst && width * height <= src.Length && width * height <= dst.Length
    modifies dst
    ensures dst[..] == Rotated(src[..width * height], width, height) + old(dst[width * height..])
  {
    hide Rotated, At;
    var size := width * height;
    ghost var s := src[..size];
    var d, base := size - 1, size - width;
    ghost var x := 0;
    AtNext(height, 0, 0);
    while base < size
      invariant x <= width && base == size - width + x && d == size - 1 - At(height, x, 0)
      invariant forall k :: d < k < size ==> 0 <= k && dst[k] == Rotated(s, width, height)[k]
      invariant forall k :: size <= k < dst.Length ==> dst[k] == old(dst[k])
    {
      var p := base;
      AtNext(width, 0, 0);
      for j := 0 to height
        invariant p == base - At(width, j, 0) && d == size - 1 - At(height, x, j)
        invariant forall k :: d < k < size ==> 0 <= k && dst[k] == Rotated(s, width, height)[k]
        invariant forall k :: size <= k < dst.Length ==> dst[k] == old(dst[k])
      {
        RotStep(s, width, height, x, j);
        dst[d] := src[p];
        d := d - 1;
        p := p - width;
        AtNext(height, x, j);
        AtNext(width, j, 0);
      }
      AtNext(height, x, height);
      base, x := base + 1, x + 1;
    }
    AtNext(height, width, 0);
  }

  lemma AtNext(w: nat, r: nat, c: nat)
    ensures At(w, 0, 0) == 0 && At(w, r, 0) == r * w
    ensures At(w, r + 1, 0) == At(w, r, 0) + w == At(w, r, w) && At(w, r, c + 1) == At(w, r, c) + 1
  {
  }

  lemma RotStep(s: seq<byte>, w: nat, h: nat, x: nat, j: nat)
    requires |s| == w * h && x < w && j < h
    ensures var d, p := w * h - 1 - At(h, x, j), w * h - w + x - At(w, j, 0);
      0 <= d < w * h && 0 <= p < w * h && Rotated(s, w, h)[d] == s[p]
  {
    hide Rotated, At;
    var r, c := w - 1 - x, h - 1 - j;
    RotPositions(w, h, x, j);
    InImage(h, w, r, c);
    InImage(w, h, c, x);
    RotatedAt(s, w, h, r, c);
  }

  /** The positions counted down are positions counted up from the other end. */
  lemma RotPositions(w: nat, h: nat, x: nat, j: nat)
    requires x < w && j < h
    ensures At(h, w - 1 - x, h - 1 - j) == w * h - 1 - At(h, x, j)
    ensures At(w, h - 1 - j, x) == w * h - w + x - At(w, j, 0)
  {
    assert (w - 1 - x) * h == w * h - h - x * h;
    assert (h - 1 - j) * w == w * h - w - j * w;
  }

  // ---- Standard form

  /** The picture an image shows, upright and in true colours. */
  function Upright(s: seq<byte>, w: nat, h: nat, vFlipped: bool, hFlipped: bool, inverted: bool): seq<byte> {
    var s1 := if vFlipped then VFlip(s, w, h) else s;
    var s2 := if hFlipped then HFlip(s1, w, h) else s1;
    if inverted then Inverted(s2) else s2
  }

  /** The pixel shown at row `r`, column `c` is the one stored where the flags say, in true colour. */
  lemma UprightAt(s: seq<byte>, w: nat, h: nat, vFlipped: bool, hFlipped: bool, inverted: bool, r: nat, c: nat)
    requires |s| == w * h && r < h && c < w
    ensures var stored := Px(s, At(w, if vFlipped then h - 1 - r else r, if hFlipped then w - 1 - c else c));
      Px(Upright(s, w, h, vFlipped, hFlipped, inverted), At(w, r, c)) == if inverted then 255 - stored else stored
  {
    hide VFlip, HFlip, Inverted, At;
    var s1 := if vFlipped then VFlip(s, w, h) else s;
    var s2 := if hFlipped then HFlip(s1, w, h) else s1;
    VFlipAt(s, w, h, r, if hFlipped then w - 1 - c else c);
    HFlipAt(s1, w, h, r, c);
    InImage(w, h, r, c);
    InvertedAt(s2, At(w, r, c));
  }

  class Img {
    const data: array<byte>
    const width: nat
    const height: nat
    var vFlipped: bool
    var hFlipped: bool
    var inverted: bool

    constructor (data: array<byte>, width: nat, height: nat, vFlipped: bool, hFlipped: bool, inverted: bool)
      ensures this.data == data && this.width == width && this.height == height
      ensures this.vFlipped == vFlipped && this.hFlipped == hFlipped && this.inverted == inverted
    {
      this.data, this.width, this.height := data, width, height;
      this.vFlipped, this.hFlipped, this.inverted := vFlipped, hFlipped, inverted;
    }

    ghost function Shown(): seq<byte>
      requires width * height <= data.Length
      reads this, data
    {
      Upright(data[..width * height], width, height, vFlipped, hFlipped, inverted)
    }

    /** `fp_img_standardize`: the image shows what it showed, now as it is stored; a standard image is left alone. */
    method Standardize()
      requires width * height <= data.Length
      modifies this, data
      ensures !vFlipped && !hFlipped && !inverted
      ensures data[..width * height] == old(Shown()) == Shown() && data[width * height..] == old(data[width * height..])
      ensures old(!vFlipped && !hFlipped && !inverted) ==> data[..] == old(data[..])
    {
      hide VFlip, HFlip, Inverted;
      ghost var n := width * height;
      if vFlipped {
        VFlipInPlace(data, width, height);
        vFlipped := false;
      }
      if hFlipped {
        HFlipInPlace(data, width, height);
        hFlipped := false;
      }
      if inverted {
        InvertColors(data, width, height);
        inverted := false;
      }
    }
  }

  // ---- Capture

  const RAW_IMAGE_WIDTH := 416
  const RAW_IMAGE_HEIGHT := 80
  const RAW_IMAGE_SIZE := RAW_IMAGE_WIDTH * RAW_IMAGE_HEIGHT
  const IMAGE_SIZE := 416 * 160

  /** The image assembly in `capture`: the raw image turned, above its mirror image. */
  method Assemble(image: array<byte>, img: array<byte>)
    requires image.Length == IMAGE_SIZE && img.Length == IMAGE_SIZE && image != img
    modifies img
    ensures var turned := Rotated(image[..RAW_IMAGE_SIZE], RAW_IMAGE_HEIGHT, RAW_IMAGE_WIDTH);
      img[..] == turned + VFlip(turned, RAW_IMAGE_WIDTH, RAW_IMAGE_HEIGHT)
    ensures VFlip(img[..], RAW_IMAGE_WIDTH, 2 * RAW_IMAGE_HEIGHT) == img[..]
  {
    hide Rotated, VFlip;
    var tmp := new byte[IMAGE_SIZE];
    Rot90Ccw(image, tmp, RAW_IMAGE_HEIGHT, RAW_IMAGE_WIDTH);
    ghost var turned := Rotated(image[..RAW_IMAGE_SIZE], RAW_IMAGE_HEIGHT, RAW_IMAGE_WIDTH);
    assert tmp[..RAW_IMAGE_SIZE] == turned;
    Memcpy(img, 0, tmp, 0, RAW_IMAGE_SIZE);
    assert img[..RAW_IMAGE_SIZE] == turned;
    FlipV(tmp, RAW_IMAGE_WIDTH, RAW_IMAGE_HEIGHT);
    ghost var mirrored := VFlip(turned, RAW_IMAGE_WIDTH, RAW_IMAGE_HEIGHT);
    assert tmp[..RAW_IMAGE_SIZE] == mirrored;
    Memcpy(img, RAW_IMAGE_SIZE, tmp, 0, RAW_IMAGE_SIZE);
    assert img[..RAW_IMAGE_SIZE] == turned && img[RAW_IMAGE_SIZE..] == mirrored;
    assert img[..] == img[..RAW_IMAGE_SIZE] + img[RAW_IMAGE_SIZE..];
    AssembledIsItsOwnMirror(turned, RAW_IMAGE_WIDTH, RAW_IMAGE_HEIGHT);
  }
}

/** Bytes, little-endian words and boundary alignment, as the image tools use them. */
module Bytes {
  import opened Arithmetic

  type byte = x: int | 0 <= x < 256

  const WORD_LIMIT: nat := 0x1_0000_0000

  datatype Option<+T> = None | Some(value: T)

  datatype Result<+T, +E> = Ok(value: T) | Err(error: E)

  /** `bytes(n)`: n zero bytes. */
  function Zeros(n: nat): (z: seq<byte>)
    ensures |z| == n
    ensures forall i :: 0 <= i < n ==> z[i] == 0
  {
    seq(n, _ => 0)
  }

  /** `b"".join(f(x) for x in xs)`. */
  function Join<T>(f: T -> seq<byte>, xs: seq<T>): seq<byte> {
    if xs == [] then [] else f(xs[0]) + Join(f, xs[1..])
  }

  lemma JoinOne<T>(f: T -> seq<byte>, x: T)
    ensures Join(f, [x]) == f(x)
  {
    assert [x][1..] == [];
  }

  lemma JoinCons<T>(f: T -> seq<byte>, x: T, xs: seq<T>)
    ensures Join(f, [x] + xs) == f(x) + Join(f, xs)
  {
    assert ([x] + xs)[1..] == xs;
  }

  lemma Associate3<T>(a: seq<T>, b: seq<T>, c: seq<T>)
    ensures (a + b) + c == a + (b + c)
  {
  }

  lemma {:induction false} JoinConcat<T>(f: T -> seq<byte>, xs: seq<T>, ys: seq<T>)
    ensures Join(f, xs + ys) == Join(f, xs) + Join(f, ys)
  {
    if xs == [] {
      assert xs + ys == ys;
    } else {
      hide Join;
      JoinConcat(f, xs[1..], ys);
      assert xs == [xs[0]] + xs[1..] && xs + ys == [xs[0]] + (xs[1..] + ys);
      JoinCons(f, xs[0], xs[1..]);
      JoinCons(f, xs[0], xs[1..] + ys);
      Associate3(f(xs[0]), Join(f, xs[1..]), Join(f, ys));
    }
  }

  lemma JoinSnoc<T>(f: T -> seq<byte>, xs: seq<T>, x: T)
    ensures Join(f, xs + [x]) == Join(f, xs) + f(x)
  {
    hide Join;
    JoinConcat(f, xs, [x]);
    JoinOne(f, x);
  }

  lemma JoinMiddle<T>(f: T -> seq<byte>, left: seq<T>, x: T, right: seq<T>)
    ensures Join(f, left + [x] + right) == Join(f, left) + f(x) + Join(f, right)
  {
    hide Join;
    JoinConcat(f, left + [x], right);
    JoinSnoc(f, left, x);
  }

  lemma SplitAt<T>(xs: seq<T>, i: nat)
    requires i < |xs|
    ensures xs == xs[..i] + [xs[i]] + xs[i + 1..]
  {
  }

  lemma JoinSplit<T>(f: T -> seq<byte>, xs: seq<T>, i: nat)
    requires i < |xs|
    ensures Join(f, xs) == Join(f, xs[..i]) + f(xs[i]) + Join(f, xs[i + 1..])
  {
    hide Join;
    SplitAt(xs, i);
    JoinMiddle(f, xs[..i], xs[i], xs[i + 1..]);
  }

  lemma {:induction false} JoinSame<T>(f: T -> seq<byte>, xs: seq<T>, ys: seq<T>)
    requires |xs| == |ys| && forall i :: 0 <= i < |xs| ==> f(xs[i]) == f(ys[i])
    ensures Join(f, xs) == Join(f, ys)
  {
    if xs != [] {
      JoinSame(f, xs[1..], ys[1..]);
    }
  }

  lemma SliceOfSlice<T>(p: seq<T>, lo: nat, hi: nat, i: nat, j: nat)
    requires i <= j <= hi - lo && lo <= hi <= |p|
    ensures p[lo..hi][i..j] == p[lo + i..lo + j]
  {
    var q := p[lo..hi];
    forall k | 0 <= k < j - i ensures q[i..j][k] == p[lo + i..lo + j][k] {
      assert q[i..j][k] == q[i + k] && q[i + k] == p[lo + (i + k)];
    }
  }

  predicate AllZero(s: seq<byte>) {
    forall i :: 0 <= i < |s| ==> s[i] == 0
  }

  lemma EqualToZeros(a: seq<byte>, b: seq<byte>)
    requires |a| == |b| && AllZero(b)
    ensures a == b <==> AllZero(a)
  {
  }

  lemma AllZeroIsZeros(s: seq<byte>)
    ensures AllZero(s) <==> s == Zeros(|s|)
  {
  }

  /** The smallest multiple of `boundary` that is at least `value`. */
  function Align(value: nat, boundary: nat): (r: nat)
    requires boundary > 0
    ensures value <= r < value + boundary
    ensures r % boundary == 0
  {
    var q := (value + boundary - 1) / boundary;
    MultipleOf(boundary, q);
    q * boundary
  }

  /** Alignment commutes with moving by whole boundaries. */
  lemma AlignShift(value: nat, start: nat, boundary: nat)
    requires boundary > 0 && start % boundary == 0
    ensures Align(start + value, boundary) == start + Align(value, boundary)
  {
    var k := start / boundary;
    assert start == k * boundary;
    var v := value + boundary - 1;
    var q, r := v / boundary, v % boundary;
    assert v == q * boundary + r;
    assert (k + q) * boundary == k * boundary + q * boundary;
    QuotientIs(start + v, boundary, k + q, r);
  }

  /** The `k` low bytes of `n`, least significant first: `struct.pack("<I", n)` when `k` is 4. */
  function LittleEndian(n: nat, k: nat): (s: seq<byte>)
    ensures |s| == k
  {
    if k == 0 then [] else [n % 0x100] + LittleEndian(n / 0x100, k - 1)
  }

  /** The number a little-endian byte string stands for. */
  function FromLittleEndian(s: seq<byte>): nat {
    if s == [] then 0 else s[0] as int + 0x100 * FromLittleEndian(s[1..])
  }

  function Power256(k: nat): (p: nat)
    ensures p > 0
  {
    if k == 0 then 1 else 0x100 * Power256(k - 1)
  }

  /** Reading back `k` bytes loses exactly what does not fit in them. */
  lemma {:induction false} FromLittleEndianOfLittleEndian(n: nat, k: nat)
    requires n < Power256(k)
    ensures FromLittleEndian(LittleEndian(n, k)) == n
  {
    if k > 0 {
      FromLittleEndianOfLittleEndian(n / 0x100, k - 1);
      assert LittleEndian(n, k)[1..] == LittleEndian(n / 0x100, k - 1);
    }
  }

  lemma {:induction false} FromLittleEndianBound(s: seq<byte>)
    ensures FromLittleEndian(s) < Power256(|s|)
  {
    if s != [] {
      FromLittleEndianBound(s[1..]);
    }
  }

  lemma LowByte(low: byte, high: nat)
    ensures (low as int + 0x100 * high) % 0x100 == low
    ensures (low as int + 0x100 * high) / 0x100 == high
  {
  }

  lemma {:induction false} LittleEndianOfFromLittleEndian(s: seq<byte>)
    ensures LittleEndian(FromLittleEndian(s), |s|) == s
  {
    if s != [] {
      LittleEndianOfFromLittleEndian(s[1..]);
      LowByte(s[0], FromLittleEndian(s[1..]));
      assert s == [s[0]] + s[1..];
    }
  }

  function Le32(n: nat): (s: seq<byte>)
    requires n < WORD_LIMIT
    ensures |s| == 4
  {
    LittleEndian(n, 4)
  }

  function FromLe32(s: seq<byte>): (n: nat)
    requires |s| == 4
    ensures n < WORD_LIMIT
    ensures Le32(n) == s
  {
    LittleEndianOfFromLittleEndian(s);
    FromLittleEndianBound(s);
    Power256Of4();
    FromLittleEndian(s)
  }

  lemma FromLe32OfLe32(n: nat)
    requires n < WORD_LIMIT
    ensures FromLe32(Le32(n)) == n
  {
    Power256Of4();
    FromLittleEndianOfLittleEndian(n, 4);
  }

  /** The bytes of a word, the lowest first. */
  lemma Le32Is(n: nat)
    requires n < WORD_LIMIT
    ensures Le32(n) == [n % 0x100, n / 0x100 % 0x100, n / 0x1_0000 % 0x100, n / 0x100_0000 % 0x100]
  {
    DivideTwice(n, 0x100, 0x100);
    DivideTwice(n, 0x1_0000, 0x100);
    LittleEndianNext(n, 4);
    LittleEndianNext(n / 0x100, 3);
    LittleEndianNext(n / 0x1_0000, 2);
    LittleEndianNext(n / 0x100_0000, 1);
  }

  lemma LittleEndianNext(n: nat, k: nat)
    requires k > 0
    ensures LittleEndian(n, k) == [n % 0x100] + LittleEndian(n / 0x100, k - 1)
  {
  }

  lemma FromLe32Is(s: seq<byte>)
    requires |s| == 4
    ensures FromLe32(s) == s[0] as nat + 0x100 * s[1] as nat + 0x1_0000 * s[2] as nat + 0x100_0000 * s[3] as nat
  {
    assert s[1..][1..] == s[2..] && s[2..][1..] == s[3..] && s[3..][1..] == [];
    assert FromLittleEndian(s[3..]) == s[3] as nat;
    assert FromLittleEndian(s[2..]) == s[2] as nat + 0x100 * FromLittleEndian(s[3..]);
    assert FromLittleEndian(s[1..]) == s[1] as nat + 0x100 * FromLittleEndian(s[2..]);
  }

  lemma Power256Of4()
    ensures Power256(4) == WORD_LIMIT
  {
    assert Power256(1) == 0x100 && Power256(2) == 0x1_0000 && Power256(3) == 0x100_0000;
  }
}

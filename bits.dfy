/** Bit-level vocabulary shared by the encoder and the decoder.
    A bit stream is a `seq<bool>` read least-significant bit first, which is
    the order in which the codec packs codes into bytes and into its
    accumulators. */
module Bits {

  newtype byte = x: int | 0 <= x < 256

  function Pow2(n: nat): (r: nat)
    ensures r >= 1
  {
    if n == 0 then 1 else 2 * Pow2(n - 1)
  }

  /** The `n` low bits of `x`, least significant first. */
  function BitsOf(x: nat, n: nat): (r: seq<bool>)
    ensures |r| == n
  {
    if n == 0 then [] else [x % 2 == 1] + BitsOf(x / 2, n - 1)
  }

  /** Go's `x << n` on an unbounded natural. */
  function Shl(x: nat, n: nat): (r: nat)
  {
    x * Pow2(n)
  }

  /** Go's `x >> n` on an unbounded natural. */
  function Shr(x: nat, n: nat): (r: nat)
  {
    if n == 0 then x else Shr(x / 2, n - 1)
  }

  /** `n` zero bits. */
  function Zeros(n: nat): (r: seq<bool>)
    ensures |r| == n
  {
    if n == 0 then [] else [false] + Zeros(n - 1)
  }

  /** The bits of a byte buffer, byte after byte, each byte LSB first. */
  function Unpack(bs: seq<byte>): (r: seq<bool>)
    ensures |r| == 8 * |bs|
  {
    if bs == [] then [] else BitsOf(bs[0] as nat, 8) + Unpack(bs[1..])
  }

  /** Bitwise or of two naturals (Go's `|` on `uint`, without the width). */
  function Or(a: nat, b: nat): (r: nat)
    decreases a + b
  {
    if a == 0 then b
    else if b == 0 then a
    else (if a % 2 == 1 || b % 2 == 1 then 1 else 0) + 2 * Or(a / 2, b / 2)
  }

  /** Euclidean division, stated for a divisor the solver cannot see. */
  lemma {:induction false} DivMod(x: nat, p: nat)
    requires p > 0
    ensures x == x % p + (x / p) * p && 0 <= x % p < p && 0 <= x / p
  {
  }

  lemma {:induction false} Pow2Add(m: nat, n: nat)
    ensures Pow2(m + n) == Pow2(m) * Pow2(n)
  {
    if m > 0 {
      Pow2Add(m - 1, n);
      assert Pow2(m + n) == 2 * Pow2(m - 1 + n);
    }
  }

  /** Or-ing a value shifted above the occupied bits is an addition: this is
      why `bits |= code << bitcount` appends a code to the accumulator. */
  lemma {:induction false} OrDisjoint(a: nat, b: nat, n: nat)
    requires a < Pow2(n)
    ensures Or(a, b * Pow2(n)) == a + b * Pow2(n)
  {
    if n == 0 {
      assert a == 0;
    } else if a == 0 || b == 0 {
      assert b * Pow2(n) == 0 || a == 0;
    } else {
      var h := b * Pow2(n - 1);
      assert b * Pow2(n) == 2 * h;
      assert (2 * h) % 2 == 0 && (2 * h) / 2 == h;
      OrDisjoint(a / 2, b, n - 1);
      assert Or(a, 2 * h) == a % 2 + 2 * Or(a / 2, h);
    }
  }

  /** The bits of `lo + hi * 2^m` are the `m` bits of `lo` followed by the
      bits of `hi`: the master lemma behind every shift and mask. */
  lemma {:induction false} BitsAdd(lo: nat, hi: nat, m: nat, n: nat)
    requires lo < Pow2(m)
    ensures BitsOf(lo + hi * Pow2(m), m + n) == BitsOf(lo, m) + BitsOf(hi, n)
  {
    if m == 0 {
      assert lo == 0;
    } else {
      var h := hi * Pow2(m - 1);
      assert hi * Pow2(m) == 2 * h;
      var x := lo + 2 * h;
      Halve(lo, h);
      BitsAdd(lo / 2, hi, m - 1, n);
      assert BitsOf(x, m + n) == [x % 2 == 1] + BitsOf(x / 2, m - 1 + n);
      assert BitsOf(lo, m) == [lo % 2 == 1] + BitsOf(lo / 2, m - 1);
      Assoc([lo % 2 == 1], BitsOf(lo / 2, m - 1), BitsOf(hi, n));
    }
  }

  lemma {:induction false} Halve(lo: nat, h: nat)
    ensures (lo + 2 * h) % 2 == lo % 2 && (lo + 2 * h) / 2 == lo / 2 + h
  {
  }

  /** Splitting the `m + n` low bits of `x` at position `m`. */
  lemma {:induction false} BitsSplit(x: nat, m: nat, n: nat)
    ensures BitsOf(x, m + n) == BitsOf(x, m) + BitsOf(Shr(x, m), n)
  {
    if m > 0 {
      BitsSplit(x / 2, m - 1, n);
      assert BitsOf(x, m + n) == [x % 2 == 1] + BitsOf(x / 2, m - 1 + n);
    }
  }

  /** A prefix of the low bits is the low bits of the shorter width. */
  lemma {:induction false} BitsPrefix(x: nat, m: nat, k: nat)
    requires k <= m
    ensures BitsOf(x, m)[..k] == BitsOf(x, k)
  {
    BitsSplit(x, k, m - k);
  }

  /** Shifting right by `m` drops the first `m` bits of the stream. */
  lemma {:induction false} BitsShift(x: nat, m: nat, n: nat)
    ensures BitsOf(Shr(x, m), n) == BitsOf(x, m + n)[m..]
  {
    BitsSplit(x, m, n);
    var front, back := BitsOf(x, m), BitsOf(Shr(x, m), n);
    assert (front + back)[m..] == back;
  }

  /** Masking with `2^m - 1` keeps the first `m` bits of the stream. */
  lemma {:induction false} BitsMask(x: nat, m: nat)
    ensures BitsOf(x % Pow2(m), m) == BitsOf(x, m)
  {
    var p := Pow2(m);
    DivMod(x, p);
    var r, q := x % p, x / p;
    assert r + q * p == x;
    BitsAdd(r, q, m, 0);
    assert BitsOf(q, 0) == [];
    assert BitsOf(r, m) + [] == BitsOf(r, m);
  }

  /** A value that fits in `c` bits, shifted right by `k`, fits in `c - k`. */
  lemma {:induction false} ShrBound(x: nat, k: nat, c: nat)
    requires k <= c && x < Pow2(c)
    ensures Shr(x, k) < Pow2(c - k)
  {
    if k > 0 {
      ShrBound(x / 2, k - 1, c - 1);
    }
  }

  lemma {:induction false} BitsOfZero(n: nat)
    ensures BitsOf(0, n) == Zeros(n)
  {
    if n > 0 {
      BitsOfZero(n - 1);
    }
  }

  /** A value below `2^m` read at a wider width is padded with zeros. */
  lemma {:induction false} BitsPad(x: nat, m: nat, k: nat)
    requires x < Pow2(m)
    ensures BitsOf(x, m + k) == BitsOf(x, m) + Zeros(k)
  {
    BitsAdd(x, 0, m, k);
    BitsOfZero(k);
  }

  lemma Assoc<T>(a: seq<T>, b: seq<T>, c: seq<T>)
    ensures a + (b + c) == (a + b) + c
  {
  }

  lemma {:induction false} UnpackAppend(bs: seq<byte>, b: byte)
    ensures Unpack(bs + [b]) == Unpack(bs) + BitsOf(b as nat, 8)
  {
    if bs == [] {
      assert Unpack([b]) == BitsOf(b as nat, 8) + Unpack([]);
    } else {
      assert (bs + [b])[1..] == bs[1..] + [b];
      UnpackAppend(bs[1..], b);
    }
  }

  lemma {:induction false} UnpackFrom(bs: seq<byte>, i: nat)
    requires i < |bs|
    ensures Unpack(bs[i..]) == BitsOf(bs[i] as nat, 8) + Unpack(bs[i + 1..])
  {
    assert bs[i..][1..] == bs[i + 1..];
  }

  /** 2^64: the range of Go's `uint` on the 64-bit platforms the codec
      targets. */
  const WordSize: nat := 0x1_0000_0000_0000_0000

  /** Go's `a - b` on `uint`: below zero it wraps around. */
  function Sub64(a: nat, b: nat): (r: nat)
    ensures r < WordSize
    ensures b <= a < WordSize ==> r == a - b
  {
    (a - b) % WordSize
  }

  /** Shifting out at least all the bits of a value leaves nothing. */
  lemma {:induction false} ShrZero(x: nat, c: nat, k: nat)
    requires x < Pow2(c) && c <= k
    ensures Shr(x, k) == 0
  {
    if k > 0 {
      if c == 0 {
        ShrZero(x / 2, 0, k - 1);
      } else {
        ShrZero(x / 2, c - 1, k - 1);
      }
    }
  }

  /** `x >> k` fits in the count of bits left by the wrapping `c - k`. */
  lemma {:induction false} ShrFits(x: nat, c: nat, k: nat)
    requires x < Pow2(c) && c < WordSize
    ensures Shr(x, k) < Pow2(Sub64(c, k))
  {
    if k <= c {
      ShrBound(x, k, c);
    } else {
      ShrZero(x, c, k);
    }
  }

  /** Two values of `n` bits with the same bits are equal. */
  lemma {:induction false} BitsInjective(a: nat, b: nat, n: nat)
    requires a < Pow2(n) && b < Pow2(n) && BitsOf(a, n) == BitsOf(b, n)
    ensures a == b
  {
    if n > 0 {
      assert BitsOf(a, n)[0] == BitsOf(b, n)[0];
      assert BitsOf(a, n)[1..] == BitsOf(a / 2, n - 1);
      assert BitsOf(b, n)[1..] == BitsOf(b / 2, n - 1);
      BitsInjective(a / 2, b / 2, n - 1);
    }
  }

  /** `lo | c << m` for `lo` of `m` bits and `c` of `n` bits: the bits of `c`
      follow those of `lo`, and the result fits in `m + n` bits. */
  lemma {:induction false} Append(lo: nat, c: nat, m: nat, n: nat)
    requires lo < Pow2(m) && c < Pow2(n)
    ensures Or(lo, c * Pow2(m)) < Pow2(m + n)
    ensures BitsOf(Or(lo, c * Pow2(m)), m + n) == BitsOf(lo, m) + BitsOf(c, n)
  {
    OrDisjoint(lo, c, m);
    BitsAdd(lo, c, m, n);
    Pow2Add(m, n);
    Below(lo, c, Pow2(m), Pow2(n), Pow2(m + n));
  }

  lemma {:induction false} Below(lo: nat, c: nat, p: nat, q: nat, pq: nat)
    requires lo < p && c < q && pq == p * q
    ensures lo + c * p < pq
  {
    assert c * p <= (q - 1) * p;
  }

  /** `byte(x & 0xff)` followed by `x >> 8` splits off the first byte of
      the stream held in `x`. */
  lemma {:induction false} TakeByte(x: nat, c: nat)
    requires x < Pow2(c) && 8 <= c
    ensures BitsOf(x, c) == BitsOf(x % 256, 8) + BitsOf(Shr(x, 8), c - 8)
    ensures Shr(x, 8) < Pow2(c - 8)
  {
    assert Pow2(8) == 256;
    BitsSplit(x, 8, c - 8);
    BitsMask(x, 8);
    ShrBound(x, 8, c);
  }

  /** `byte(x)` for fewer than 8 bits held in `x`: those bits, then zeros. */
  lemma {:induction false} LastByte(x: nat, c: nat)
    requires x < Pow2(c) && c < 8
    ensures BitsOf(x % 256, 8) == BitsOf(x, c) + Zeros(8 - c)
  {
    assert Pow2(8) == 256;
    BitsMask(x, 8);
    BitsPad(x, c, 8 - c);
  }

  /** One more bit shifted out. */
  lemma {:induction false} ShrStep(x: nat, j: nat)
    ensures Shr(x, j + 1) == Shr(x, j) / 2
  {
    if j > 0 {
      ShrStep(x / 2, j - 1);
    }
  }
}

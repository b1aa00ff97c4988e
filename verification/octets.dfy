/** The conversion between byte values and bytes, kept apart from everything
    else so that the solver sees nothing but the conversion. */
module ByteValues {
  /** A value in 0..255 survives the trip through a byte. */
  lemma {:induction false} ByteValue(v: int)
    requires 0 <= v < 256
    ensures (v as bv8) as int == v
  {
  }

  /** The ASCII byte of a decimal digit lies in '0'..'9' and gives the digit
      back when '0' is subtracted. */
  lemma {:induction false} DigitByte(d: int)
    requires 0 <= d < 10
    ensures var b := (0x30 + d) as bv8; 0x30 <= b <= 0x39 && (b - 0x30) as int == d
  {
    var b := (0x30 + d) as bv8;
    assert b as int == 0x30 + d;
  }

  /** Packing a two-bit version, two flags and a four-bit count into one byte
      and shifting right by six gives the version back. */
  lemma {:induction false} FirstByteBits(version: bv8, padding: bv8, extension: bv8, cc: bv8)
    requires version < 4 && padding < 2 && extension < 2 && cc < 16
    ensures ((version << 6) | (padding << 5) | (extension << 4) | cc) >> 6 == version
  {
  }

  /** Packing a one-bit marker above a seven-bit payload type keeps both
      readable: the low seven bits and the top bit. */
  lemma {:induction false} SecondByteBits(marker: bv8, pt: bv8)
    requires marker < 2 && pt < 128
    ensures ((marker << 7) | pt) & 127 == pt
    ensures ((marker << 7) | pt) >> 7 == marker
  {
  }

  function Max(a: int, b: int): int
  {
    if a < b then b else a
  }

  /** Without masking, the upper two bits of a three-bit padding land on the
      version bits: the byte shifted right by six reads each version bit
      OR-ed with the matching padding bit. */
  lemma {:induction false} FirstByteSpill(version: bv8, padding: bv8, extension: bv8, cc: bv8)
    requires version < 4 && padding < 8 && extension < 2 && cc < 16
    ensures var v := (((version << 6) | (padding << 5) | (extension << 4) | cc) >> 6) as int;
            && v / 2 == Max(version as int / 2, padding as int / 4)
            && v % 2 == Max(version as int % 2, padding as int / 2 % 2)
  {
    var v := ((version << 6) | (padding << 5) | (extension << 4) | cc) >> 6;
    assert v == version | (padding >> 1);
    assert v as int / 2 == (v >> 1) as int && v as int % 2 == (v & 1) as int;
    assert version as int / 2 == (version >> 1) as int && version as int % 2 == (version & 1) as int;
    assert padding as int / 4 == (padding >> 2) as int && padding as int / 2 % 2 == ((padding >> 1) & 1) as int;
  }

  /** Without masking, the top bit of an eight-bit payload type lands on the
      marker bit: the top bit reads marker OR that bit, the low seven bits
      read the type modulo 128. */
  lemma {:induction false} SecondByteSpill(marker: bv8, pt: bv8)
    requires marker < 2
    ensures (((marker << 7) | pt) >> 7) as int == Max(marker as int, pt as int / 128)
    ensures (((marker << 7) | pt) & 127) as int == pt as int % 128
  {
    if pt < 128 {
      assert ((marker << 7) | pt) >> 7 == marker;
      assert ((marker << 7) | pt) & 127 == pt;
    } else {
      assert ((marker << 7) | pt) >> 7 == 1;
      assert ((marker << 7) | pt) & 127 == pt - 128;
    }
  }
}

/** Byte strings, the big-endian integer fields of the RTP header, and the
    flattening of nested lists. */
module Octets {
  import opened ByteValues


  type Byte = bv8
  type Bytes = seq<Byte>

  /** 256 raised to the n-th power: the number of values n bytes can hold. */
  function Pow256(n: nat): (p: nat)
    ensures p >= 1
  {
    if n == 0 then 1 else 256 * Pow256(n - 1)
  }

  /** The n bytes that a sequence of `(x >> 8*k) & 0xFF` assignments stores,
      most significant first. Python's `>>` on int is floor division by a
      power of two and `& 0xFF` is the floor remainder modulo 256; Dafny's
      `/` and `%` by a positive divisor agree with both, also for negative x. */
  function ToBigEndian(x: int, n: nat): (r: Bytes)
    ensures |r| == n
    decreases n
  {
    if n == 0 then [] else ToBigEndian(x / 256, n - 1) + [(x % 256) as bv8]
  }

  /** The unsigned integer that big-endian bytes denote, as the getters compute
      it with `(b0 << 8) | b1` and so on (the OR of disjoint byte positions is
      their sum). */
  function FromBigEndian(bs: Bytes): (v: nat)
  {
    if |bs| == 0 then 0 else FromBigEndian(bs[..|bs| - 1]) * 256 + bs[|bs| - 1] as int
  }

  /** Euclidean remainder is unique: any decomposition with a remainder in
      range is the one `%` computes. */
  lemma {:induction false} ModUnique(x: int, d: int, k: int, r: int)
    requires d > 0 && 0 <= r < d && x == k * d + r
    ensures x % d == r && x / d == k
  {
    var q, m := x / d, x % d;
    assert (q - k) * d == r - m;
    if q - k >= 1 {
      MulAtLeast(q - k, d);
    } else if k - q >= 1 {
      MulAtLeast(k - q, d);
    }
  }

  /** A positive multiple of d is at least d. */
  lemma {:induction false} MulAtLeast(a: int, d: int)
    requires a >= 1 && d > 0
    ensures a * d >= d
  {
    assert a * d == d + (a - 1) * d;
  }

  /** Splitting off the lowest digit in some base and then reducing the
      rest modulo m is reduction modulo base * m. */
  lemma {:induction false} ModSplit(x: int, base: int, m: int)
    requires base > 0 && m > 0
    ensures ((x / base) % m) * base + x % base == x % (base * m)
  {
    var q, r := x / base, x % base;
    var a, b := q / m, q % m;
    assert q == a * m + b;
    assert x == a * (base * m) + (b * base + r) by {
      assert x == q * base + r;
      assert q * base == a * m * base + b * base;
    }
    assert 0 <= b * base + r < base * m by {
      assert b <= m - 1;
      assert b * base <= (m - 1) * base;
    }
    ModUnique(x, base * m, a, b * base + r);
  }

  /** Only the low n bytes of x survive the byte-wise store: reading the
      bytes back gives x modulo 256^n. */
  lemma {:induction false} BigEndianRoundTrip(x: int, n: nat)
    ensures FromBigEndian(ToBigEndian(x, n)) == x % Pow256(n)
    decreases n
  {
    if n > 0 {
      var r := ToBigEndian(x, n);
      var low := x % 256;
      var rest := FromBigEndian(ToBigEndian(x / 256, n - 1));
      assert r[..n - 1] == ToBigEndian(x / 256, n - 1);
      assert r[n - 1] as int == low by {
        ByteValue(low);
      }
      assert FromBigEndian(r) == rest * 256 + low;
      BigEndianRoundTrip(x / 256, n - 1);
      ModSplit(x, 256, Pow256(n - 1));
    }
  }

  /** The three parts of a tail that is a concatenation, by position. */
  lemma {:induction false} SlicesOfConcat<T>(f: seq<T>, p: nat, a: seq<T>, b: seq<T>, c: seq<T>)
    requires p <= |f| && f[p..] == a + b + c
    ensures p + |a| + |b| + |c| == |f|
    ensures f[p..p + |a|] == a
    ensures f[p + |a|..p + |a| + |b|] == b
    ensures f[p + |a| + |b|..] == c
  {
    var t := f[p..];
    assert f[p..p + |a|] == t[..|a|];
    assert f[p + |a|..p + |a| + |b|] == t[|a|..|a| + |b|];
    assert f[p + |a| + |b|..] == t[|a| + |b|..];
  }

  /** n bytes denote less than 256^n. */
  lemma {:induction false} FromBigEndianBound(bs: Bytes)
    ensures FromBigEndian(bs) < Pow256(|bs|)
    decreases |bs|
  {
    if |bs| > 0 {
      var init := bs[..|bs| - 1];
      FromBigEndianBound(init);
      assert FromBigEndian(init) <= Pow256(|init|) - 1;
      assert FromBigEndian(bs) <= (Pow256(|init|) - 1) * 256 + 255;
    }
  }

  /** A suffix is the slice up to j followed by the suffix from j. */
  lemma {:induction false} SliceSplit<T>(s: seq<T>, i: nat, j: nat)
    requires i <= j <= |s|
    ensures s[i..] == s[i..j] + s[j..]
  {
  }

  /** 256^2 and 256^4, the moduli of the 16- and 32-bit header fields. */
  lemma {:induction false} Pow256Values()
    ensures Pow256(2) == 0x1_0000 && Pow256(4) == 0x1_0000_0000
  {
    assert Pow256(2) == 256 * Pow256(1);
    assert Pow256(4) == 256 * Pow256(3);
  }

  /** The smaller of two counts (Python's `min`). */
  function Min(a: int, b: int): int
  {
    if a <= b then a else b
  }

  /** All lists of a list, one after another (for byte strings, Python's
      `b"".join(parts)`). */
  function Flatten<T>(parts: seq<seq<T>>): (r: seq<T>)
  {
    if |parts| == 0 then [] else parts[0] + Flatten(parts[1..])
  }

  /** Flattening distributes over appending lists. */
  lemma {:induction false} FlattenAppend<T>(a: seq<seq<T>>, b: seq<seq<T>>)
    ensures Flatten(a + b) == Flatten(a) + Flatten(b)
    decreases |a|
  {
    if |a| > 0 {
      assert (a + b)[1..] == a[1..] + b;
      FlattenAppend(a[1..], b);
    } else {
      assert a + b == b;
    }
  }
}

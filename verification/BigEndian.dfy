/** Big-endian integers of a fixed number of bytes. */
module BigEndian {
  import opened Words

  function Pow256(n: nat): (p: nat)
    ensures p > 0
  {
    if n == 0 then 1 else 256 * Pow256(n - 1)
  }

  function Bytes(n: nat, x: nat): (r: seq<byte>)
    ensures |r| == n
  {
    if n == 0 then [] else Bytes(n - 1, x / 256) + [x % 256]
  }

  function Value(s: seq<byte>): nat {
    if s == [] then 0 else 256 * Value(s[..|s| - 1]) + s[|s| - 1]
  }

  lemma {:induction false} ValueOfBytes(n: nat, x: nat)
    requires x < Pow256(n)
    ensures Value(Bytes(n, x)) == x
  {
    if n > 0 {
      ValueOfBytes(n - 1, x / 256);
      assert Bytes(n, x)[..n - 1] == Bytes(n - 1, x / 256);
    }
  }

  lemma {:induction false} BytesOfValue(s: seq<byte>)
    ensures Value(s) < Pow256(|s|)
    ensures Bytes(|s|, Value(s)) == s
  {
    if s != [] {
      BytesOfValue(s[..|s| - 1]);
      assert Value(s) / 256 == Value(s[..|s| - 1]) && Value(s) % 256 == s[|s| - 1];
      assert s == s[..|s| - 1] + [s[|s| - 1]];
    }
  }

  lemma Powers()
    ensures Pow256(2) == 0x1_0000 && Pow256(4) == TWO32 && Pow256(8) == TWO64
  {
    assert Pow256(1) == 256;
    assert Pow256(2) == 0x1_0000;
    assert Pow256(3) == 0x100_0000;
    assert Pow256(4) == TWO32;
    assert Pow256(5) == 256 * TWO32;
    assert Pow256(6) == 0x1_0000 * TWO32;
    assert Pow256(7) == 0x100_0000 * TWO32;
  }

  // ---------- Which byte stands where ----------

  lemma DivisionsCompose(x: nat, p: nat)
    requires p > 0
    ensures x / 256 / p == x / (256 * p)
  {
    var q := x / 256 / p;
    assert q * (256 * p) == 256 * (q * p);
    assert q * p <= x / 256 < q * p + p;
    assert 256 * (q * p) <= x < 256 * (q * p) + 256 * p;
    QuotientUnique(x, 256 * p, q);
  }

  lemma QuotientUnique(x: nat, d: nat, q: nat)
    requires d > 0 && d * q <= x < d * q + d
    ensures x / d == q
  {
    var r := x / d;
    assert x == d * r + x % d;
    assert d * (r - q) == d * r - d * q;
    MultipleAtLeast(d, r - q);
  }

  lemma MultipleAtLeast(d: int, t: int)
    requires d > 0
    ensures t >= 1 ==> d * t >= d
    ensures t <= -1 ==> d * t <= -d
  {
  }

  /** Byte `k` of `n` holds the digit of weight `256^(n - 1 - k)`: the first byte is the most significant. */
  lemma {:induction false} DigitAt(n: nat, x: nat, k: nat)
    requires k < n
    ensures Bytes(n, x)[k] == x / Pow256(n - 1 - k) % 256
  {
    if k < n - 1 {
      DigitAt(n - 1, x / 256, k);
      DivisionsCompose(x, Pow256(n - 2 - k));
    }
  }

  /** The two bytes of a count or a length. */
  lemma TwoBytes(x: nat)
    requires x < 0x1_0000
    ensures Bytes(2, x) == [x / 256, x % 256]
  {
    assert Bytes(1, x / 256) == [] + [x / 256 % 256];
    assert x / 256 % 256 == x / 256;
  }

  lemma PowersOf256()
    ensures Pow256(0) == 1 && Pow256(1) == 0x100 && Pow256(2) == 0x1_0000 && Pow256(3) == 0x100_0000
    ensures Pow256(4) == 0x1_0000_0000 && Pow256(5) == 0x100_0000_0000 && Pow256(6) == 0x1_0000_0000_0000
    ensures Pow256(7) == 0x100_0000_0000_0000
  {
    assert Pow256(0) == 1;
    assert Pow256(1) == 256 * Pow256(0);
    assert Pow256(2) == 256 * Pow256(1);
    assert Pow256(3) == 256 * Pow256(2);
    assert Pow256(4) == 256 * Pow256(3);
    assert Pow256(5) == 256 * Pow256(4);
    assert Pow256(6) == 256 * Pow256(5);
    assert Pow256(7) == 256 * Pow256(6);
  }

  /** Digit `k` of eight, `weight` being that of the digits after it. */
  lemma DigitOfEight(x: nat, k: nat, weight: nat)
    requires k < 8 && weight == Pow256(7 - k)
    ensures Bytes(8, x)[k] == x / weight % 256
  {
    DigitAt(8, x, k);
  }

  lemma TopDigit(x: nat)
    requires x < TWO64
    ensures x / 0x100_0000_0000_0000 % 256 == x / 0x100_0000_0000_0000
  {
  }

  /** The eight bytes of a counter. */
  lemma EightBytes(x: nat)
    requires x < TWO64
    ensures x / 0x100_0000_0000_0000 < 256
    ensures Bytes(8, x) == [x / 0x100_0000_0000_0000, x / 0x1_0000_0000_0000 % 256, x / 0x100_0000_0000 % 256,
                            x / 0x1_0000_0000 % 256, x / 0x100_0000 % 256, x / 0x1_0000 % 256, x / 0x100 % 256, x % 256]
  {
    PowersOf256();
    TopDigit(x);
    DigitOfEight(x, 0, 0x100_0000_0000_0000);
    DigitOfEight(x, 1, 0x1_0000_0000_0000);
    DigitOfEight(x, 2, 0x100_0000_0000);
    DigitOfEight(x, 3, 0x1_0000_0000);
    DigitOfEight(x, 4, 0x100_0000);
    DigitOfEight(x, 5, 0x1_0000);
    DigitOfEight(x, 6, 0x100);
    DigitOfEight(x, 7, 1);
  }

  lemma ValueOfTwo(s: seq<byte>)
    requires |s| == 2
    ensures var a: nat, b: nat := s[0], s[1]; Value(s) == 0x100 * a + b
  {
    assert Value(s[..1]) == s[0];
  }

  lemma ValueOfFour(s: seq<byte>)
    requires |s| == 4
    ensures var a: nat, b: nat, c: nat, d: nat := s[0], s[1], s[2], s[3];
            Value(s) == 0x100_0000 * a + 0x1_0000 * b + 0x100 * c + d
  {
    ValueOfTwo(s[..2]);
    assert s[..3][..2] == s[..2];
    assert Value(s[..3]) == 256 * Value(s[..2]) + s[2];
  }

  lemma ValueOfEight(s: seq<byte>)
    requires |s| == 8
    ensures var a: nat, b: nat, c: nat, d: nat := s[0], s[1], s[2], s[3];
            var e: nat, f: nat, g: nat, h: nat := s[4], s[5], s[6], s[7];
            Value(s) == 0x1_0000_0000 * (0x100_0000 * a + 0x1_0000 * b + 0x100 * c + d)
                        + (0x100_0000 * e + 0x1_0000 * f + 0x100 * g + h)
  {
    ValueOfFour(s[..4]);
    assert s[..5][..4] == s[..4] && s[..6][..5] == s[..5] && s[..7][..6] == s[..6];
    assert Value(s[..5]) == 256 * Value(s[..4]) + s[4];
    assert Value(s[..6]) == 256 * Value(s[..5]) + s[5];
    assert Value(s[..7]) == 256 * Value(s[..6]) + s[6];
  }

  /** Stores `x` in `n` bytes of the buffer at `off`. */
  method Put(buff: array<byte>, off: nat, n: nat, x: nat)
    requires off + n <= buff.Length
    modifies buff
    ensures buff[..off + n] == old(buff[..off]) + Bytes(n, x)
  {
    var y: nat, k: nat := x, n;
    while k > 0
      invariant k <= n
      invariant Bytes(n, x) == Bytes(k, y) + buff[off + k..off + n]
      invariant buff[..off] == old(buff[..off])
    {
      k := k - 1;
      ghost var tail := buff[off + k + 1..off + n];
      buff[off + k] := y % 256;
      assert buff[off + k..off + n] == [y % 256] + tail;
      y := y / 256;
    }
    assert buff[..off + n] == buff[..off] + buff[off..off + n];
  }

  /** Copies `src` into the buffer at `off`. */
  method Copy(buff: array<byte>, off: nat, src: seq<byte>)
    requires off + |src| <= buff.Length
    modifies buff
    ensures buff[..off + |src|] == old(buff[..off]) + src
  {
    for i := 0 to |src|
      invariant buff[..off + i] == old(buff[..off]) + src[..i]
    {
      buff[off + i] := src[i];
      assert buff[..off + i + 1] == buff[..off + i] + [src[i]];
    }
  }
}

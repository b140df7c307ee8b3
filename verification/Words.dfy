/** Fixed-width integers, node identifiers and their byte-wise order. */
module Words {

  const TWO32: int := 0x1_0000_0000
  const TWO63: int := 0x8000_0000_0000_0000
  const TWO64: int := 0x1_0000_0000_0000_0000

  type byte = x: nat | x < 256
  type uint32 = x: nat | x < 0x1_0000_0000
  type uint64 = x: nat | x < 0x1_0000_0000_0000_0000
  type int64 = x: int | -0x8000_0000_0000_0000 <= x < 0x8000_0000_0000_0000

  /** A Go string is an immutable sequence of bytes. */
  type NodeId = seq<byte>

  datatype Option<+T> = None | Some(value: T)

  function Max(a: int, b: int): int { if a < b then b else a }

  function Min(a: int, b: int): int { if a < b then a else b }

  /** `x + 1` on a `uint32`: wraps to zero. */
  function Inc32(x: uint32): (y: uint32)
    ensures y == (x + 1) % 0x1_0000_0000
  {
    if x == TWO32 - 1 then 0 else x + 1
  }

  /** `x + 1` on a `uint64`: wraps to zero. */
  function Inc64(x: uint64): (y: uint64)
    ensures y == (x + 1) % 0x1_0000_0000_0000_0000
  {
    if x == TWO64 - 1 then 0 else x + 1
  }

  /** The value an `int64` operation stores when its exact result is `x`. */
  function Wrap64(x: int): (r: int64)
    ensures -TWO63 <= x < TWO63 ==> r == x
  {
    (x + TWO63) % TWO64 - TWO63
  }

  /** It differs from the exact result by a multiple of 2^64, which leaves one choice. */
  lemma WrapsAround(x: int, r: int64)
    ensures (x - r) % 0x1_0000_0000_0000_0000 == 0 <==> r == Wrap64(x)
  {
    var m := (x + TWO63) % TWO64;
    assert x + TWO63 == TWO64 * ((x + TWO63) / TWO64) + m;
    MultipleOnly(x - Wrap64(x), (x + TWO63) / TWO64);
    if (x - r) % TWO64 == 0 {
      assert x - r == TWO64 * ((x - r) / TWO64);
      assert r - Wrap64(x) == TWO64 * ((x + TWO63) / TWO64 - (x - r) / TWO64);
    }
  }

  lemma MultipleOnly(x: int, q: int)
    requires x == TWO64 * q
    ensures x % TWO64 == 0
  {
  }

  /** Go's integer division truncates toward zero. */
  function Quo(x: int, d: int): (q: int)
    requires d > 0
    ensures x >= 0 ==> q * d <= x < (q + 1) * d
    ensures x <= 0 ==> (q - 1) * d < x <= q * d
  {
    if x >= 0 then x / d else -((-x) / d)
  }

  /** Go's `<` on strings: byte-wise lexicographic. */
  predicate LexLess(a: NodeId, b: NodeId) {
    b != [] && (a == [] || a[0] < b[0] || (a[0] == b[0] && LexLess(a[1..], b[1..])))
  }

  /** `a` is a strict prefix of `b`, or has the smaller byte where they first differ. */
  lemma {:induction false} LexLessIff(a: NodeId, b: NodeId)
    ensures LexLess(a, b) <==>
            exists k: nat :: k <= |a| && k <= |b| && a[..k] == b[..k]
                             && (k == |a| < |b| || (k < |a| && k < |b| && a[k] < b[k]))
  {
    if a == [] || b == [] || a[0] != b[0] {
      assert a[..0] == b[..0];
    } else {
      var s, t := a[1..], b[1..];
      LexLessIff(s, t);
      if LexLess(s, t) {
        var k: nat :| k <= |s| && k <= |t| && s[..k] == t[..k]
                      && (k == |s| < |t| || (k < |s| && k < |t| && s[k] < t[k]));
        assert a[..k + 1] == [a[0]] + s[..k] && b[..k + 1] == [b[0]] + t[..k];
      }
      if k: nat :| k <= |a| && k <= |b| && a[..k] == b[..k]
                   && (k == |a| < |b| || (k < |a| && k < |b| && a[k] < b[k])) {
        assert k > 0 && s[..k - 1] == a[..k][1..] && t[..k - 1] == b[..k][1..];
      }
    }
  }

  lemma {:induction false} LexIrreflexive(a: NodeId)
    ensures !LexLess(a, a)
  {
    if a != [] { LexIrreflexive(a[1..]); }
  }

  lemma {:induction false} LexTransitive(a: NodeId, b: NodeId, c: NodeId)
    requires LexLess(a, b) && LexLess(b, c)
    ensures LexLess(a, c)
  {
    if a != [] && a[0] == b[0] == c[0] {
      LexTransitive(a[1..], b[1..], c[1..]);
    }
  }

  lemma {:induction false} LexTotal(a: NodeId, b: NodeId)
    ensures LexLess(a, b) || a == b || LexLess(b, a)
  {
    if a != [] && b != [] && a[0] == b[0] {
      LexTotal(a[1..], b[1..]);
      assert a == [a[0]] + a[1..] && b == [b[0]] + b[1..];
    }
  }

  lemma LexAsymmetric(a: NodeId, b: NodeId)
    requires LexLess(a, b)
    ensures !LexLess(b, a) && a != b
  {
    LexIrreflexive(a);
    if LexLess(b, a) { LexTransitive(a, b, a); }
  }
}

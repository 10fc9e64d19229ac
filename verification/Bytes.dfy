/**
 Byte strings, 64-bit machine integers and the two integer encodings the indexes use.
 Little-endian numbers appear inside composite keys; big-endian order is what the
 author walk relies on. Every encoding is tied to its inverse.
 */
module Bytes {

  type byte = x: int | 0 <= x < 256

  type bytes = seq<byte>

  const U64_MAX: int := 0xFFFF_FFFF_FFFF_FFFF

  type u64 = x: int | 0 <= x <= U64_MAX

  datatype Option<+T> = None | Some(value: T)

  function Pow256(n: nat): (p: nat)
    ensures p >= 1
  {
    if n == 0 then 1 else 256 * Pow256(n - 1)
  }

  lemma Pow256Of8()
    ensures Pow256(8) == U64_MAX + 1
  {
  }

  // ---------------------------------------------------------------------------
  // Little-endian
  // ---------------------------------------------------------------------------

  /** The number a little-endian byte string denotes. */
  function LeVal(s: bytes): (n: nat)
  {
    if s == [] then 0 else s[0] + 256 * LeVal(s[1..])
  }

  /** The `width` low bytes of `n`, least significant first. */
  function LeBytes(n: nat, width: nat): (s: bytes)
    ensures |s| == width
  {
    if width == 0 then [] else [n % 256] + LeBytes(n / 256, width - 1)
  }

  lemma {:induction false} LeValBound(s: bytes)
    ensures LeVal(s) < Pow256(|s|)
  {
    if s != [] {
      LeValBound(s[1..]);
    }
  }

  /** Encoding then decoding is the identity on numbers that fit. */
  lemma {:induction false} LeValOfLeBytes(n: nat, width: nat)
    requires n < Pow256(width)
    ensures LeVal(LeBytes(n, width)) == n
  {
    if width > 0 {
      LeValOfLeBytes(n / 256, width - 1);
      assert LeBytes(n, width)[1..] == LeBytes(n / 256, width - 1);
    }
  }

  /** Decoding then encoding is the identity on every byte string. */
  lemma {:induction false} LeBytesOfLeVal(s: bytes)
    ensures LeBytes(LeVal(s), |s|) == s
  {
    if s != [] {
      LeBytesOfLeVal(s[1..]);
      var n := LeVal(s);
      assert n % 256 == s[0] && n / 256 == LeVal(s[1..]);
      assert s == [s[0]] + s[1..];
    }
  }

  // ---------------------------------------------------------------------------
  // Byte-lexicographic order
  // ---------------------------------------------------------------------------

  /** Strict byte-lexicographic order: the first difference decides, a proper prefix is smaller. */
  predicate Lex(a: bytes, b: bytes)
  {
    b != [] && (a == [] || a[0] < b[0] || (a[0] == b[0] && Lex(a[1..], b[1..])))
  }

  lemma {:induction false} LexIrreflexive(a: bytes)
    ensures !Lex(a, a)
  {
    if a != [] {
      LexIrreflexive(a[1..]);
    }
  }

  lemma {:induction false} LexTransitive(a: bytes, b: bytes, c: bytes)
    requires Lex(a, b) && Lex(b, c)
    ensures Lex(a, c)
  {
    if a != [] && a[0] == b[0] == c[0] {
      LexTransitive(a[1..], b[1..], c[1..]);
    }
  }

  lemma {:induction false} LexTotal(a: bytes, b: bytes)
    ensures a == b || Lex(a, b) || Lex(b, a)
  {
    if a != [] && b != [] && a[0] == b[0] {
      LexTotal(a[1..], b[1..]);
      assert a == [a[0]] + a[1..] && b == [b[0]] + b[1..];
    }
  }

  /** The three order laws at once, for callers that need them for every triple. */
  lemma LexIsStrictTotalOrder()
    ensures forall a: bytes :: !Lex(a, a)
    ensures forall a: bytes, b: bytes, c: bytes :: Lex(a, b) && Lex(b, c) ==> Lex(a, c)
    ensures forall a: bytes, b: bytes :: a == b || Lex(a, b) || Lex(b, a)
  {
    forall a: bytes ensures !Lex(a, a) { LexIrreflexive(a); }
    forall a: bytes, b: bytes, c: bytes | Lex(a, b) && Lex(b, c) ensures Lex(a, c) {
      LexTransitive(a, b, c);
    }
    forall a: bytes, b: bytes ensures a == b || Lex(a, b) || Lex(b, a) { LexTotal(a, b); }
  }

  /** A proper byte prefix always sorts first. */
  lemma {:induction false} ProperPrefixIsLess(a: bytes, b: bytes)
    requires a <= b && |a| < |b|
    ensures Lex(a, b)
  {
    if a != [] {
      ProperPrefixIsLess(a[1..], b[1..]);
    }
  }

  ghost predicate Ascending(s: seq<bytes>)
  {
    forall i, j :: 0 <= i < j < |s| ==> Lex(s[i], s[j])
  }

  /** Strictly above a cursor; without a cursor everything is. */
  predicate Beyond(after: Option<bytes>, a: bytes)
  {
    after.None? || Lex(after.value, a)
  }

  // ---------------------------------------------------------------------------
  // Big-endian
  // ---------------------------------------------------------------------------

  /** The number a big-endian byte string denotes. */
  function BeVal(s: bytes): (n: nat)
  {
    if s == [] then 0 else s[0] * Pow256(|s| - 1) + BeVal(s[1..])
  }

  lemma {:induction false} BeValBound(s: bytes)
    ensures BeVal(s) < Pow256(|s|)
  {
    if s != [] {
      BeValBound(s[1..]);
      var p := Pow256(|s| - 1);
      assert s[0] * p <= 255 * p by { MulMonotone(s[0], 255, p); }
    }
  }

  lemma MulMonotone(a: nat, b: nat, p: nat)
    requires a <= b
    ensures a * p <= b * p
  {
  }

  /** On strings of equal length, byte order is the order of the big-endian numbers. */
  lemma {:induction false} LexIsBigEndianOrder(a: bytes, b: bytes)
    requires |a| == |b|
    ensures Lex(a, b) <==> BeVal(a) < BeVal(b)
  {
    if a != [] {
      LexIsBigEndianOrder(a[1..], b[1..]);
      BeValBound(a[1..]);
      BeValBound(b[1..]);
      var p := Pow256(|a| - 1);
      if a[0] < b[0] {
        MulMonotone(a[0] + 1, b[0], p);
        assert (a[0] + 1) * p == a[0] * p + p;
      } else if b[0] < a[0] {
        MulMonotone(b[0] + 1, a[0], p);
        assert (b[0] + 1) * p == b[0] * p + p;
      }
    }
  }

  /** Splitting a big-endian number at its last byte. */
  lemma {:induction false} BeValSnoc(s: bytes, x: byte)
    ensures BeVal(s + [x]) == 256 * BeVal(s) + x
  {
    if s == [] {
      assert s + [x] == [x];
      assert BeVal([x]) == x * Pow256(0) + BeVal([]);
    } else {
      BeValSnoc(s[1..], x);
      assert (s + [x])[1..] == s[1..] + [x];
      var p := Pow256(|s| - 1);
      assert Pow256(|s|) == 256 * p;
      assert s[0] * (256 * p) == 256 * (s[0] * p);
    }
  }
}

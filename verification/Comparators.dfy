/**
 The golpe key comparators, byte for byte, and the order they induce.

 Every index key of at least 8 bytes splits into a prefix and a trailing little-endian
 `created_at`. `Key` is that split; `Encode` and `Decode` are the bijection with the bytes.
 The comparators are modelled on bytes and shown to be the order `KeyLess`, which the
 rest of the read path uses.
 */
module Comparators {
  import opened Bytes

  datatype IndexKind =
    | EventId | EventPubkey | EventKind | EventPubkeyKind | EventTag | EventCreatedAt

  // ---------------------------------------------------------------------------
  // Keys
  // ---------------------------------------------------------------------------

  datatype Key = Key(prefix: bytes, ts: u64)

  function Encode(k: Key): (b: bytes)
    ensures |b| == |k.prefix| + 8
  {
    k.prefix + LeBytes(k.ts, 8)
  }

  /** `created_at_from_key`: total, 0 for a key too short to hold a timestamp. */
  function CreatedAtFromKey(b: bytes): (ts: u64)
    ensures |b| < 8 ==> ts == 0
  {
    if |b| < 8 then 0
    else
      LeValBound(b[|b| - 8..]); Pow256Of8();
      LeVal(b[|b| - 8..])
  }

  function Decode(b: bytes): (k: Key)
    requires |b| >= 8
  {
    Key(b[..|b| - 8], CreatedAtFromKey(b))
  }

  /** Keys and byte strings of at least 8 bytes are the same thing. */
  lemma KeyBytesRoundTrip(k: Key, b: bytes)
    ensures Decode(Encode(k)) == k
    ensures |b| >= 8 ==> Encode(Decode(b)) == b
  {
    Pow256Of8();
    LeValOfLeBytes(k.ts, 8);
    assert Encode(k)[|k.prefix|..] == LeBytes(k.ts, 8);
    assert Encode(k)[..|k.prefix|] == k.prefix;
    if |b| >= 8 {
      LeBytesOfLeVal(b[|b| - 8..]);
      assert b == b[..|b| - 8] + b[|b| - 8..];
    }
  }

  // ---------------------------------------------------------------------------
  // The comparators
  // ---------------------------------------------------------------------------

  /** `memcmp` over equally long buffers: the signed difference of the first bytes that differ. */
  function MemCmp(a: bytes, b: bytes): (d: int)
    requires |a| == |b|
  {
    if a == [] then 0
    else if a[0] != b[0] then a[0] - b[0]
    else MemCmp(a[1..], b[1..])
  }

  /** `mdb_cmp_memn_inline`: memcmp on the common length, then the shorter string first. */
  function CmpMemN(a: bytes, b: bytes): (d: int)
  {
    var len := if |a| < |b| then |a| else |b|;
    var diff := MemCmp(a[..len], b[..len]);
    if diff != 0 then diff
    else if |a| < |b| then -1
    else if |a| > |b| then 1
    else 0
  }

  function CmpInt(a: int, b: int): (d: int)
  {
    if a < b then -1 else if a > b then 1 else 0
  }

  /** Keys the comparator of an index accepts; on any other width the C++ aborts. */
  predicate Comparable(kind: IndexKind, b: bytes)
  {
    match kind
    case EventKind => |b| == 16
    case EventPubkeyKind => |b| >= 16
    case EventCreatedAt => |b| == 8
    case _ => |b| >= 8
  }

  function StringUint64(a: bytes, b: bytes): (d: int)
    requires |a| >= 8 && |b| >= 8
  {
    var c := CmpMemN(a[..|a| - 8], b[..|b| - 8]);
    if c != 0 then c else CmpInt(LeVal(a[|a| - 8..]), LeVal(b[|b| - 8..]))
  }

  function Uint64Uint64(a: bytes, b: bytes): (d: int)
    requires |a| == 16 && |b| == 16
  {
    var c := CmpInt(LeVal(a[..8]), LeVal(b[..8]));
    if c != 0 then c else CmpInt(LeVal(a[8..]), LeVal(b[8..]))
  }

  function StringUint64Uint64(a: bytes, b: bytes): (d: int)
    requires |a| >= 16 && |b| >= 16
  {
    var c := CmpMemN(a[..|a| - 16], b[..|b| - 16]);
    if c != 0 then c
    else
      var n := CmpInt(LeVal(a[|a| - 16..|a| - 8]), LeVal(b[|b| - 16..|b| - 8]));
      if n != 0 then n else CmpInt(LeVal(a[|a| - 8..]), LeVal(b[|b| - 8..]))
  }

  /** The comparator each index is opened with. */
  function Compare(kind: IndexKind, a: bytes, b: bytes): (d: int)
    requires Comparable(kind, a) && Comparable(kind, b)
  {
    match kind
    case EventKind => Uint64Uint64(a, b)
    case EventPubkeyKind => StringUint64Uint64(a, b)
    case EventCreatedAt => CmpInt(LeVal(a), LeVal(b))
    case _ => StringUint64(a, b)
  }

  // ---------------------------------------------------------------------------
  // The order on keys
  // ---------------------------------------------------------------------------

  /** What a scan needs to know about a comparator: which prefixes occur, and their order. */
  datatype Order = Order(ok: bytes -> bool, less: (bytes, bytes) -> bool)

  ghost predicate Lawful(o: Order)
  {
    && (forall p :: !o.less(p, p))
    && (forall p, q, r :: o.ok(p) && o.ok(q) && o.ok(r) && o.less(p, q) && o.less(q, r) ==> o.less(p, r))
    && (forall p, q :: o.ok(p) && o.ok(q) ==> p == q || o.less(p, q) || o.less(q, p))
  }

  predicate KeyLess(o: Order, a: Key, b: Key)
  {
    o.less(a.prefix, b.prefix) || (a.prefix == b.prefix && a.ts < b.ts)
  }

  /** Prefix widths in each index; only tag values vary in length. */
  predicate PrefixOk(kind: IndexKind, p: bytes)
  {
    match kind
    case EventId => |p| == 32
    case EventPubkey => |p| == 32
    case EventKind => |p| == 8
    case EventPubkeyKind => |p| == 40
    case EventTag => |p| >= 1
    case EventCreatedAt => |p| == 0
  }

  predicate PrefixLess(kind: IndexKind, p: bytes, q: bytes)
  {
    match kind
    case EventKind => LeVal(p) < LeVal(q)
    case EventPubkeyKind =>
      |p| >= 8 && |q| >= 8 &&
      (Lex(p[..|p| - 8], q[..|q| - 8]) ||
       (p[..|p| - 8] == q[..|q| - 8] && LeVal(p[|p| - 8..]) < LeVal(q[|q| - 8..])))
    case EventCreatedAt => false
    case _ => Lex(p, q)
  }

  function OrderOf(kind: IndexKind): (o: Order)
  {
    Order(p => PrefixOk(kind, p), (p, q) => PrefixLess(kind, p, q))
  }

  lemma {:induction false} MemCmpIsLex(a: bytes, b: bytes)
    requires |a| == |b|
    ensures MemCmp(a, b) < 0 <==> Lex(a, b)
    ensures MemCmp(a, b) == 0 <==> a == b
  {
    if a != [] {
      MemCmpIsLex(a[1..], b[1..]);
      assert a == [a[0]] + a[1..] && b == [b[0]] + b[1..];
    }
  }

  /** A difference inside the common length decides the lexicographic order of the whole. */
  lemma {:induction false} LexOnCommonLength(a: bytes, b: bytes, n: nat)
    requires n <= |a| && n <= |b| && a[..n] != b[..n]
    ensures Lex(a, b) <==> Lex(a[..n], b[..n])
  {
    if a[0] == b[0] {
      assert a[..n] == [a[0]] + a[1..][..n - 1] && b[..n] == [b[0]] + b[1..][..n - 1];
      LexOnCommonLength(a[1..], b[1..], n - 1);
      assert a[..n][1..] == a[1..][..n - 1] && b[..n][1..] == b[1..][..n - 1];
    }
  }

  lemma CmpMemNIsLex(a: bytes, b: bytes)
    ensures CmpMemN(a, b) < 0 <==> Lex(a, b)
    ensures CmpMemN(a, b) == 0 <==> a == b
  {
    var len := if |a| < |b| then |a| else |b|;
    MemCmpIsLex(a[..len], b[..len]);
    if a[..len] != b[..len] {
      LexOnCommonLength(a, b, len);
    } else if |a| < |b| {
      ProperPrefixIsLess(a, b);
    } else if |a| > |b| {
      ProperPrefixIsLess(b, a);
      LexIsStrictTotalOrder();
    } else {
      assert a == a[..len] && b == b[..len];
      LexIrreflexive(a);
    }
  }

  lemma LeValInjective(a: bytes, b: bytes)
    requires |a| == |b|
    ensures LeVal(a) == LeVal(b) <==> a == b
  {
  }

  /** Every index orders its prefixes strictly and totally. */
  lemma OrderIsLawful(kind: IndexKind)
    ensures Lawful(OrderOf(kind))
  {
    LexIsStrictTotalOrder();
    var o := OrderOf(kind);
    forall p, q | o.ok(p) && o.ok(q) ensures p == q || o.less(p, q) || o.less(q, p) {
      if kind.EventKind? {
        LeValInjective(p, q);
      } else if kind.EventPubkeyKind? {
        LeValInjective(p[32..], q[32..]);
        assert p == p[..32] + p[32..] && q == q[..32] + q[32..];
      }
    }
  }

  lemma CompareOnPrefix(kind: IndexKind, a: Key, b: Key)
    requires PrefixOk(kind, a.prefix) && PrefixOk(kind, b.prefix)
    ensures
      var d := Compare(kind, Encode(a), Encode(b));
      if a.prefix == b.prefix then d == CmpInt(a.ts, b.ts)
      else (d < 0 <==> PrefixLess(kind, a.prefix, b.prefix)) && d != 0
  {
    var x, y := Encode(a), Encode(b);
    KeyBytesRoundTrip(a, x);
    KeyBytesRoundTrip(b, y);
    assert x[..|x| - 8] == a.prefix && y[..|y| - 8] == b.prefix;
    assert LeVal(x[|x| - 8..]) == a.ts && LeVal(y[|y| - 8..]) == b.ts;
    match kind
    case EventKind =>
      LeValInjective(a.prefix, b.prefix);
    case EventPubkeyKind =>
      var p, q := a.prefix, b.prefix;
      assert x[..|x| - 16] == p[..32] && y[..|y| - 16] == q[..32];
      assert x[|x| - 16..|x| - 8] == p[32..] && y[|y| - 16..|y| - 8] == q[32..];
      CmpMemNIsLex(p[..32], q[..32]);
      LeValInjective(p[32..], q[32..]);
      assert p == p[..32] + p[32..] && q == q[..32] + q[32..];
      LexIrreflexive(p[..32]);
    case EventCreatedAt =>
      assert x == x[|x| - 8..] && y == y[|y| - 8..];
    case _ =>
      CmpMemNIsLex(a.prefix, b.prefix);
  }

  /**
   The comparator of each index is the order "prefix first, then created_at", and reports
   equality only on identical bytes.
   */
  lemma CompareIsKeyOrder(kind: IndexKind, a: Key, b: Key)
    requires PrefixOk(kind, a.prefix) && PrefixOk(kind, b.prefix)
    ensures Compare(kind, Encode(a), Encode(b)) < 0 <==> KeyLess(OrderOf(kind), a, b)
    ensures Compare(kind, Encode(a), Encode(b)) > 0 <==> KeyLess(OrderOf(kind), b, a)
    ensures Compare(kind, Encode(a), Encode(b)) == 0 <==> Encode(a) == Encode(b)
  {
    CompareOnPrefix(kind, a, b);
    CompareOnPrefix(kind, b, a);
    OrderIsLawful(kind);
    KeyBytesRoundTrip(a, []);
    KeyBytesRoundTrip(b, []);
    var o := OrderOf(kind);
    assert !o.less(a.prefix, a.prefix);
    if a.prefix != b.prefix {
      assert o.ok(a.prefix) && o.ok(b.prefix);
      assert o.less(a.prefix, b.prefix) || o.less(b.prefix, a.prefix);
      assert !(o.less(a.prefix, b.prefix) && o.less(b.prefix, a.prefix));
    }
  }

  /** The order on keys is strict and total. */
  lemma KeyOrderIsStrictTotal(o: Order)
    requires Lawful(o)
    ensures forall a: Key :: !KeyLess(o, a, a)
    ensures forall a: Key, b: Key, c: Key ::
              (o.ok(a.prefix) && o.ok(b.prefix) && o.ok(c.prefix) && KeyLess(o, a, b) && KeyLess(o, b, c)) ==>
                KeyLess(o, a, c)
    ensures forall a: Key, b: Key ::
              o.ok(a.prefix) && o.ok(b.prefix) ==> a == b || KeyLess(o, a, b) || KeyLess(o, b, a)
  {
  }

  /** Keys between two keys of one prefix carry that prefix too. */
  lemma PrefixGroupIsContiguous(o: Order, a: Key, b: Key, c: Key)
    requires Lawful(o) && o.ok(a.prefix) && o.ok(b.prefix) && o.ok(c.prefix)
    requires KeyLess(o, a, b) && KeyLess(o, b, c) && a.prefix == c.prefix
    ensures b.prefix == a.prefix && a.ts < b.ts < c.ts
  {
  }

  // ---------------------------------------------------------------------------
  // reverse_upper_bound
  // ---------------------------------------------------------------------------

  /**
   `reverse_upper_bound` on bytes: the key with its timestamp advanced by one and `true`, or
   the key itself and `false` when the timestamp is u64::MAX or the key is too short.
   */
  function ReverseUpperBound(start: bytes): (r: (bytes, bool))
    ensures |r.0| == |start| && (!r.1 ==> r.0 == start) && (|start| < 8 ==> !r.1)
  {
    if |start| < 8 then (start, false)
    else
      var ts := CreatedAtFromKey(start);
      if ts < U64_MAX then (start[..|start| - 8] + LeBytes(ts + 1, 8), true) else (start, false)
  }

  lemma ReverseUpperBoundOnKeys(k: Key)
    ensures ReverseUpperBound(Encode(k)) ==
            if k.ts < U64_MAX then (Encode(Key(k.prefix, k.ts + 1)), true) else (Encode(k), false)
  {
    KeyBytesRoundTrip(k, []);
    assert Encode(k)[..|k.prefix|] == k.prefix;
  }

  /** Strictly below `prefix || ts+1` is exactly at or below `prefix || ts`. */
  lemma ExcludedSuccessorIsInclusive(o: Order, k: Key, start: Key)
    requires Lawful(o) && start.ts < U64_MAX
    ensures KeyLess(o, k, Key(start.prefix, start.ts + 1)) <==> k == start || KeyLess(o, k, start)
  {
  }

  // ---------------------------------------------------------------------------
  // The prefix guard
  // ---------------------------------------------------------------------------

  /** `key.starts_with(prefix)`, a test on the whole key including its timestamp bytes. */
  predicate Guard(prefix: bytes, k: Key)
  {
    prefix <= Encode(k)
  }

  /** A key of a shorter prefix whose timestamp bytes complete `prefix`. */
  predicate Alias(prefix: bytes, k: Key)
  {
    |k.prefix| < |prefix| && Guard(prefix, k)
  }

  /**
   What the byte test accepts: keys of the prefix, keys of a longer prefix (which sort above
   every key a reverse scan of this prefix meets) and aliases (which sort below).
   */
  lemma GuardSplitsThreeWays(kind: IndexKind, p: bytes, k: Key)
    requires PrefixOk(kind, p) && PrefixOk(kind, k.prefix)
    ensures k.prefix == p ==> Guard(p, k)
    ensures Guard(p, k) && !Alias(p, k) && k.prefix != p ==> kind.EventTag? && OrderOf(kind).less(p, k.prefix)
    ensures Alias(p, k) ==> kind.EventTag? && OrderOf(kind).less(k.prefix, p)
  {
    var b := Encode(k);
    if Guard(p, k) {
      if |k.prefix| < |p| {
        assert k.prefix == b[..|k.prefix|] == p[..|k.prefix|];
        ProperPrefixIsLess(k.prefix, p);
      } else if k.prefix != p {
        assert p == b[..|p|] == k.prefix[..|p|];
        assert k.prefix[..|k.prefix|] == k.prefix;
        ProperPrefixIsLess(p, k.prefix);
      }
    }
  }
}

/**
 Seek-skip enumeration of the distinct authors in `Event__pubkey`: one seek per author,
 jumping over all entries of an author with the big-endian successor of its pubkey.
 */
module Authors {
  import opened Bytes
  import opened Comparators
  import opened Scan
  import opened Hex

  // ---------------------------------------------------------------------------
  // increment_be
  // ---------------------------------------------------------------------------

  function Repeat(x: byte, n: nat): (s: bytes)
    ensures |s| == n && forall i :: 0 <= i < n ==> s[i] == x
  {
    if n == 0 then [] else Repeat(x, n - 1) + [x]
  }

  /** Carrying through a tail of 0xFF bytes adds one. */
  lemma {:induction false} CarryAddsOne(head: bytes, x: byte, n: nat)
    requires x < 255
    ensures BeVal(head + [x + 1] + Repeat(0, n)) == BeVal(head + [x] + Repeat(255, n)) + 1
  {
    if n == 0 {
      assert head + [x + 1] + Repeat(0, 0) == head + [x + 1];
      assert head + [x] + Repeat(255, 0) == head + [x];
      BeValSnoc(head, x + 1);
      BeValSnoc(head, x);
    } else {
      CarryAddsOne(head, x, n - 1);
      var lo, hi := head + [x] + Repeat(255, n - 1), head + [x + 1] + Repeat(0, n - 1);
      assert head + [x] + Repeat(255, n) == lo + [255];
      assert head + [x + 1] + Repeat(0, n) == hi + [0];
      BeValSnoc(lo, 255);
      BeValSnoc(hi, 0);
    }
  }

  lemma {:induction false} AllOnesIsGreatest(n: nat)
    ensures BeVal(Repeat(255, n)) == Pow256(n) - 1
  {
    if n > 0 {
      AllOnesIsGreatest(n - 1);
      BeValSnoc(Repeat(255, n - 1), 255);
    }
  }

  /** `increment_be`: the big-endian successor, or nothing when every byte carries. */
  method IncrementBe(pk: bytes) returns (r: Option<bytes>)
    ensures r.Some? ==> |r.value| == |pk| && BeVal(r.value) == BeVal(pk) + 1
    ensures r.None? ==> BeVal(pk) == Pow256(|pk|) - 1
  {
    var n := |pk|;
    var result := new byte[n](i requires 0 <= i < n => pk[i]);
    var i := n;
    while i > 0
      invariant 0 <= i <= n
      invariant forall j :: 0 <= j < i ==> result[j] == pk[j]
      invariant forall j :: i <= j < n ==> result[j] == 0 && pk[j] == 255
    {
      i := i - 1;
      if result[i] < 255 {
        result[i] := result[i] + 1;
        assert pk == pk[..i] + [pk[i]] + Repeat(255, n - i - 1);
        assert result[..] == pk[..i] + [pk[i] + 1] + Repeat(0, n - i - 1);
        CarryAddsOne(pk[..i], pk[i], n - i - 1);
        return Some(result[..]);
      }
      result[i] := 0;
    }
    assert pk == Repeat(255, n);
    AllOnesIsGreatest(n);
    r := None;
  }

  /** The successor is the least string of its length above: seeking to it skips exactly one author. */
  lemma SuccessorIsNext(pk: bytes, r: Option<bytes>, q: bytes)
    requires |q| == |pk|
    requires r.Some? ==> |r.value| == |pk| && BeVal(r.value) == BeVal(pk) + 1
    requires r.None? ==> BeVal(pk) == Pow256(|pk|) - 1
    ensures Lex(pk, q) <==> r.Some? && !Lex(q, r.value)
  {
    LexIsBigEndianOrder(pk, q);
    BeValBound(q);
    if r.Some? {
      LexIsBigEndianOrder(q, r.value);
    }
  }

  // ---------------------------------------------------------------------------
  // distinct_authors
  // ---------------------------------------------------------------------------

  ghost predicate Authored(entries: set<Entry>, a: bytes)
  {
    exists e :: e in entries && e.key.prefix == a
  }

  ghost predicate AuthoredIn(idx: seq<Entry>, a: bytes)
  {
    exists e :: e in idx && e.key.prefix == a
  }

  /** The authors of a page: the first `limit` distinct ones beyond the cursor, in byte order. */
  ghost predicate IsAuthorPage(db: SubDb, after: Option<bytes>, limit: nat, page: seq<bytes>, next: Option<bytes>)
  {
    && Ascending(page) && |page| <= limit
    && (forall a :: a in page ==> |a| == 32 && Beyond(after, a) && Authored(db.may, a))
    && (forall a :: Authored(db.must, a) && Beyond(after, a) ==>
          a in page || (|page| == limit && forall b :: b in page ==> Lex(b, a)))
    && next == (if |page| == limit && page != [] then Some(page[|page| - 1]) else None)
  }

  /** An author the page has not reached yet. */
  ghost predicate Later(after: Option<bytes>, page: seq<bytes>, a: bytes)
  {
    Beyond(after, a) && forall b :: b in page ==> Lex(b, a)
  }

  /** `seek` is where the later authors begin. */
  ghost predicate Separates(after: Option<bytes>, page: seq<bytes>, seek: bytes, a: bytes)
  {
    |a| == 32 ==> (!Lex(a, seek) <==> Later(after, page, a))
  }

  /** Where the next seek lands: authors not yet returned are at or above `seek`. */
  ghost predicate SeekInv(db: SubDb, idx: seq<Entry>, after: Option<bytes>, page: seq<bytes>, seek: bytes)
  {
    && |seek| == 32 && Ascending(page)
    && (forall a :: a in page ==> |a| == 32 && Beyond(after, a) && Authored(db.may, a))
    && (forall a: bytes :: Separates(after, page, seek, a))
    && (forall a :: AuthoredIn(idx, a) && Beyond(after, a) ==> a in page || !Lex(a, seek))
  }

  lemma ZeroIsLeast(a: bytes, n: nat)
    requires |a| == n
    ensures !Lex(a, Repeat(0, n))
  {
    LexIsBigEndianOrder(a, Repeat(0, n));
    ZeroValue(n);
  }

  lemma {:induction false} ZeroValue(n: nat)
    ensures BeVal(Repeat(0, n)) == 0
  {
    if n > 0 {
      ZeroValue(n - 1);
      BeValSnoc(Repeat(0, n - 1), 0);
    }
  }

  /** The first entry at or above `seek` belongs to the least author at or above it. */
  lemma SeekLandsOnNextAuthor(db: SubDb, idx: seq<Entry>, seek: bytes)
    requires db.Valid() && db.ord == OrderOf(EventPubkey) && Snapshot(db.ord, idx) && |seek| == 32
    ensures
      var s := RangeOf(db.ord, Forward, idx, Included(Key(seek, 0)));
      && (forall e :: e in idx && !Lex(e.key.prefix, seek) ==> s != [] && !Lex(e.key.prefix, s[0].key.prefix))
      && (s != [] ==> s[0] in idx && |s[0].key.prefix| == 32 && !Lex(s[0].key.prefix, seek))
  {
    var o := db.ord;
    var s := RangeOf(o, Forward, idx, Included(Key(seek, 0)));
    RangeIsOrdered(o, Forward, idx, Included(Key(seek, 0)));
    LexIsStrictTotalOrder();
    if s != [] {
      assert s[0] in s;
      assert o.ok(s[0].key.prefix);
      assert !o.less(s[0].key.prefix, seek);
    }
    forall e | e in idx && !Lex(e.key.prefix, seek) ensures s != [] && !Lex(e.key.prefix, s[0].key.prefix) {
      assert !o.less(e.key.prefix, seek);
      assert e in s;
      var i :| 0 <= i < |s| && s[i] == e;
      assert i == 0 || EntryLess(o, s[0], s[i]);
      assert o.less(s[0].key.prefix, e.key.prefix) || s[0].key.prefix == e.key.prefix;
    }
  }

  /** Above the author found is later than the whole page with it. */
  lemma AboveThePage(after: Option<bytes>, page: seq<bytes>, a: bytes, b: bytes)
    requires Later(after, page, a)
    ensures Lex(a, b) <==> Later(after, page + [a], b)
  {
    if Lex(a, b) {
      if after.Some? { LexTransitive(after.value, a, b); }
      forall x | x in page + [a] ensures Lex(x, b) {
        if x in page { LexTransitive(x, a, b); }
      }
    } else {
      assert a in page + [a];
    }
  }

  /** Taking the author found extends the page in order. */
  lemma TakeAuthor(db: SubDb, after: Option<bytes>, page: seq<bytes>, a: bytes)
    requires Ascending(page) && forall x :: x in page ==> |x| == 32 && Beyond(after, x) && Authored(db.may, x)
    requires |a| == 32 && Later(after, page, a) && Authored(db.may, a)
    ensures Ascending(page + [a])
    ensures forall x :: x in page + [a] ==> |x| == 32 && Beyond(after, x) && Authored(db.may, x)
  {
  }

  /** Every author found in the snapshot is on the page now or above the last one taken. */
  lemma RestIsAbove(db: SubDb, idx: seq<Entry>, after: Option<bytes>, page: seq<bytes>, seek: bytes, a: bytes, b: bytes)
    requires SeekInv(db, idx, after, page, seek) && !Lex(a, seek)
    requires forall x :: AuthoredIn(idx, x) && !Lex(x, seek) ==> !Lex(x, a)
    requires AuthoredIn(idx, b) && Beyond(after, b)
    ensures b in page + [a] || Lex(a, b)
  {
    LexTotal(a, b);
    assert a in page + [a] && (b in page ==> b in page + [a]);
  }

  lemma SuccessorSeparates(after: Option<bytes>, page: seq<bytes>, a: bytes, r: bytes, b: bytes)
    requires Later(after, page, a) && |a| == 32 && |r| == 32 && BeVal(r) == BeVal(a) + 1
    ensures Separates(after, page + [a], r, b)
  {
    if |b| == 32 {
      AboveThePage(after, page, a, b);
      SuccessorIsNext(a, Some(r), b);
    }
  }

  /** Seeking past the author found. */
  lemma SeekAdvances(db: SubDb, idx: seq<Entry>, after: Option<bytes>, page: seq<bytes>, seek: bytes, a: bytes,
                     r: Option<bytes>)
    requires SeekInv(db, idx, after, page, seek) && |a| == 32 && !Lex(a, seek) && Authored(db.may, a)
    requires forall b :: AuthoredIn(idx, b) && !Lex(b, seek) ==> !Lex(b, a)
    requires forall e :: e in idx ==> |e.key.prefix| == 32
    requires r.Some? ==> |r.value| == 32 && BeVal(r.value) == BeVal(a) + 1
    requires r.None? ==> BeVal(a) == Pow256(32) - 1
    ensures r.Some? ==> SeekInv(db, idx, after, page + [a], r.value)
    ensures r.None? ==> Complete(db, idx, after, page + [a])
  {
    assert Separates(after, page, seek, a);
    TakeAuthor(db, after, page, a);
    forall b | AuthoredIn(idx, b) && Beyond(after, b) ensures b in page + [a] || (r.Some? && !Lex(b, r.value)) {
      assert |b| == 32;
      RestIsAbove(db, idx, after, page, seek, a, b);
      SuccessorIsNext(a, r, b);
    }
    if r.Some? {
      forall b: bytes ensures Separates(after, page + [a], r.value, b) {
        SuccessorSeparates(after, page, a, r.value, b);
      }
    }
  }

  /** The first seek: the all-zero key, or the successor of the cursor; nothing beyond an all-ones cursor. */
  method FirstSeekKey(after: Option<bytes>) returns (seek: Option<bytes>)
    requires after.Some? ==> |after.value| == 32
    ensures seek.Some? ==> |seek.value| == 32 && forall a: bytes :: Separates(after, [], seek.value, a)
    ensures seek.None? ==> forall a: bytes :: |a| == 32 ==> !Beyond(after, a)
  {
    if after.None? {
      forall a: bytes ensures Separates(after, [], Repeat(0, 32), a) { if |a| == 32 { ZeroIsLeast(a, 32); } }
      return Some(Repeat(0, 32));
    }
    seek := IncrementBe(after.value);
    forall a: bytes | |a| == 32 ensures Lex(after.value, a) <==> seek.Some? && !Lex(a, seek.value) {
      SuccessorIsNext(after.value, seek, a);
    }
  }

  /** One seek: the next author at or above `seek`, if any. */
  method SeekAuthor(db: SubDb, idx: seq<Entry>, seek: bytes) returns (r: Option<bytes>)
    requires db.Valid() && db.ord == OrderOf(EventPubkey) && Snapshot(db.ord, idx) && |seek| == 32
    ensures r.None? ==> forall b :: AuthoredIn(idx, b) ==> Lex(b, seek)
    ensures r.Some? ==> AuthoredIn(idx, r.value) && |r.value| == 32 && !Lex(r.value, seek)
    ensures r.Some? ==> forall b :: AuthoredIn(idx, b) && !Lex(b, seek) ==> !Lex(b, r.value)
  {
    var s := RangeOf(db.ord, Forward, idx, Included(Key(seek, 0)));
    SeekLandsOnNextAuthor(db, idx, seek);
    r := if s == [] then None else Some(s[0].key.prefix);
  }

  /** Nothing beyond the cursor is missing from the page. */
  ghost predicate Complete(db: SubDb, idx: seq<Entry>, after: Option<bytes>, page: seq<bytes>)
  {
    && Ascending(page)
    && (forall a :: a in page ==> |a| == 32 && Beyond(after, a) && Authored(db.may, a))
    && (forall a :: AuthoredIn(idx, a) && Beyond(after, a) ==> a in page)
  }

  /** One slot of a page: the next author and where to seek after it. */
  method NextAuthor(db: SubDb, idx: seq<Entry>, ghost after: Option<bytes>, ghost page: seq<bytes>, seek: bytes)
    returns (found: Option<bytes>, r: Option<bytes>)
    requires db.Valid() && db.ord == OrderOf(EventPubkey) && Snapshot(db.ord, idx)
    requires forall e :: e in idx ==> e in db.may && |e.key.prefix| == 32
    requires SeekInv(db, idx, after, page, seek)
    ensures found.None? ==> Complete(db, idx, after, page)
    ensures found.Some? && r.None? ==> Complete(db, idx, after, page + [found.value])
    ensures found.Some? && r.Some? ==> SeekInv(db, idx, after, page + [found.value], r.value)
  {
    found := SeekAuthor(db, idx, seek);
    r := None;
    if found.Some? {
      r := IncrementBe(found.value);
      ghost var e :| e in idx && e.key.prefix == found.value;
      assert e in db.may;
      SeekAdvances(db, idx, after, page, seek, found.value, r);
    }
  }

  /** One page of distinct authors, from one transaction and at most one seek per slot. */
  method DistinctAuthors(db: SubDb, after: Option<bytes>, limit: nat)
    returns (page: seq<bytes>, next: Option<bytes>, ghost seeks: nat)
    requires db.Valid() && db.ord == OrderOf(EventPubkey) && (after.Some? ==> |after.value| == 32)
    modifies db.env
    ensures IsAuthorPage(db, after, limit, page, next)
    ensures seeks <= limit && seeks <= |page| + 1
  {
    var idx := db.ReadTxn();
    page, seeks := [], 0;
    assert forall e :: e in idx ==> |e.key.prefix| == 32 by {
      forall e | e in idx ensures |e.key.prefix| == 32 { assert db.ord.ok(e.key.prefix); }
    }
    var first := FirstSeekKey(after);
    if first.None? {
      NothingBeyond(db, idx, after, limit);
      return [], None, 0;
    }
    var seek := first.value;
    FirstSeek(db, idx, after, seek);
    while |page| < limit
      invariant |page| <= limit && seeks == |page|
      invariant SeekInv(db, idx, after, page, seek)
      decreases limit - |page|
    {
      var found, r := NextAuthor(db, idx, after, page, seek);
      seeks := seeks + 1;
      if found.None? {
        PageIsComplete(db, idx, after, limit, page);
        return page, None, seeks;
      }
      page := page + [found.value];
      if r.None? {
        PageIsComplete(db, idx, after, limit, page);
        next := if |page| == limit then Some(page[|page| - 1]) else None;
        return;
      }
      seek := r.value;
    }
    PageIsFull(db, idx, after, limit, page, seek);
    next := if page != [] then Some(page[|page| - 1]) else None;
  }

  lemma FirstSeek(db: SubDb, idx: seq<Entry>, after: Option<bytes>, seek: bytes)
    requires |seek| == 32 && forall e :: e in idx ==> |e.key.prefix| == 32
    requires forall a: bytes :: Separates(after, [], seek, a)
    ensures SeekInv(db, idx, after, [], seek)
  {
    forall a | AuthoredIn(idx, a) && Beyond(after, a) ensures !Lex(a, seek) {
      assert Separates(after, [], seek, a);
    }
  }

  lemma NothingBeyond(db: SubDb, idx: seq<Entry>, after: Option<bytes>, limit: nat)
    requires forall e :: e in db.must ==> e in idx
    requires forall e :: e in idx ==> |e.key.prefix| == 32
    requires forall a: bytes :: |a| == 32 ==> !Beyond(after, a)
    ensures IsAuthorPage(db, after, limit, [], None)
  {
  }

  lemma PageIsComplete(db: SubDb, idx: seq<Entry>, after: Option<bytes>, limit: nat, page: seq<bytes>)
    requires |page| <= limit && Complete(db, idx, after, page) && forall e :: e in db.must ==> e in idx
    ensures IsAuthorPage(db, after, limit, page, if |page| == limit && page != [] then Some(page[|page| - 1]) else None)
  {
  }

  lemma PageIsFull(db: SubDb, idx: seq<Entry>, after: Option<bytes>, limit: nat, page: seq<bytes>, seek: bytes)
    requires |page| == limit && SeekInv(db, idx, after, page, seek)
    requires forall e :: e in db.must ==> e in idx
    requires forall e :: e in idx ==> |e.key.prefix| == 32
    ensures IsAuthorPage(db, after, limit, page, if page != [] then Some(page[|page| - 1]) else None)
  {
    forall a | Authored(db.must, a) && Beyond(after, a) && a !in page ensures forall b :: b in page ==> Lex(b, a) {
      assert AuthoredIn(idx, a);
      assert |a| == 32;
      assert Separates(after, page, seek, a);
    }
  }

  // ---------------------------------------------------------------------------
  // Paging through all authors
  // ---------------------------------------------------------------------------

  ghost function AuthorsBeyond(db: SubDb, after: Option<bytes>): (s: set<bytes>)
  {
    set e | e in db.may && Beyond(after, e.key.prefix) :: e.key.prefix
  }

  /** Following the cursor yields every author exactly once, in byte order, and stops. */
  method WalkAuthors(db: SubDb, limit: nat) returns (all: seq<bytes>)
    requires db.Valid() && db.ord == OrderOf(EventPubkey) && limit >= 1
    modifies db.env
    ensures Ascending(all)
    ensures forall a :: a in all ==> Authored(db.may, a)
    ensures forall a :: Authored(db.must, a) ==> a in all
  {
    all := [];
    var after: Option<bytes> := None;
    LexIsStrictTotalOrder();
    while true
      invariant Ascending(all) && (after.Some? ==> |after.value| == 32)
      invariant forall a :: a in all ==> Authored(db.may, a) && after.Some? && !Lex(after.value, a)
      invariant forall a :: Authored(db.must, a) ==> a in all || Beyond(after, a)
      decreases |AuthorsBeyond(db, after)|
    {
      var page, next, _ := DistinctAuthors(db, after, limit);
      JoinPages(all, page, after);
      all := all + page;
      if next.None? {
        return;
      }
      CursorMovesUp(db, after, limit, page, next.value);
      after := next;
    }
  }

  lemma JoinPages(all: seq<bytes>, page: seq<bytes>, after: Option<bytes>)
    requires Ascending(all) && Ascending(page)
    requires forall a :: a in all ==> after.Some? && !Lex(after.value, a)
    requires forall a :: a in page ==> Beyond(after, a)
    ensures Ascending(all + page)
  {
    LexIsStrictTotalOrder();
    forall i, j | 0 <= i < |all| && 0 <= j < |page| ensures Lex(all[i], page[j]) {
      assert all[i] in all && page[j] in page;
      assert all[i] == after.value || Lex(all[i], after.value);
    }
  }

  lemma CursorMovesUp(db: SubDb, after: Option<bytes>, limit: nat, page: seq<bytes>, next: bytes)
    requires IsAuthorPage(db, after, limit, page, Some(next))
    ensures |next| == 32 && Beyond(after, next)
    ensures forall a :: a in page ==> !Lex(next, a)
    ensures |AuthorsBeyond(db, Some(next))| < |AuthorsBeyond(db, after)|
  {
    LexIsStrictTotalOrder();
    assert next in page;
    forall a | a in page ensures !Lex(next, a) {
      var i :| 0 <= i < |page| && page[i] == a;
    }
    var e :| e in db.may && e.key.prefix == next;
    assert next in AuthorsBeyond(db, after);
    assert AuthorsBeyond(db, Some(next)) <= AuthorsBeyond(db, after) - {next};
    SmallerSubset(AuthorsBeyond(db, Some(next)), AuthorsBeyond(db, after) - {next});
  }

  // ---------------------------------------------------------------------------
  // The authors query with its hex cursor
  // ---------------------------------------------------------------------------

  datatype AuthorsReply = InvalidCursor | AuthorsPage(authors: seq<Text>, endCursor: Option<Text>)

  /**
   An honest page of the author listing: of the authors `must`, all between the cursor asked for
   and the end cursor returned; all of the rest when no end cursor is returned.
   */
  ghost predicate Honest(must: set<Text>, after: Option<Text>, authors: seq<Text>, end: Option<Text>)
  {
    forall a :: a in must && Beyond(after, a) && (end.None? || !Lex(end.value, a)) ==> a in authors
  }

  function HexAll(page: seq<bytes>): (s: seq<Text>)
    ensures |s| == |page| && forall i :: 0 <= i < |page| ==> s[i] == HexEncode(page[i])
  {
    if page == [] then [] else [HexEncode(page[0])] + HexAll(page[1..])
  }

  predicate IsCursor(s: Text)
  {
    HexDecode(s).Some? && |HexDecode(s).value| == 32
  }

  /** A cursor in lowercase; cursors the server hands out are lowercase already. */
  function Normal(after: Option<Text>): (c: Option<Text>)
    requires after.Some? ==> IsCursor(after.value)
  {
    match after case None => None case Some(s) => Some(HexEncode(HexDecode(s).value))
  }

  lemma LowercaseIsNormal(s: Text)
    requires IsLowerHex(s) && |s| == 64
    ensures IsCursor(s) && Normal(Some(s)) == Some(s)
  {
    HexEncodeOfDecode(s);
  }

  function Min(a: int, b: int): (m: int)
  {
    if a < b then a else b
  }

  /** What the caller gets at most: 100 unless asked, and between 1 and 500 whatever is asked. */
  ghost function PageSize(limit: Option<int>): (n: nat)
  {
    match limit case None => 100 case Some(n) => if n < 1 then 1 else Min(n, 500)
  }

  /**
   Lowercase encodings of stored authors beyond the cursor, ascending; full exactly if there is an
   end cursor, its last.
   */
  ghost predicate IsListing(db: SubDb, after: Option<Text>, n: nat, authors: seq<Text>, end: Option<Text>)
  {
    && Ascending(authors) && |authors| <= n
    && (forall a :: a in authors ==> Beyond(after, a) && IsStoredAuthor(db, a))
    && end == if |authors| == n && n > 0 then Some(authors[|authors| - 1]) else None
  }

  lemma HexPageIsListing(db: SubDb, cursor: Option<bytes>, after: Option<Text>, limit: nat, page: seq<bytes>,
                         next: Option<bytes>)
    requires limit >= 1 && IsAuthorPage(db, cursor, limit, page, next)
    requires cursor.Some? <==> after.Some?
    requires after.Some? ==> |cursor.value| == 32 && after.value == HexEncode(cursor.value)
    ensures IsListing(db, after, limit, HexAll(page), if next.None? then None else Some(HexEncode(next.value)))
  {
    var all := HexAll(page);
    HexAllAscends(page);
    forall i | 0 <= i < |all| ensures Beyond(after, all[i]) && IsStoredAuthor(db, all[i]) {
      HexAuthor(db, cursor, after, page[i]);
    }
  }

  lemma HexAuthor(db: SubDb, cursor: Option<bytes>, after: Option<Text>, a: bytes)
    requires |a| == 32 && Beyond(cursor, a) && Authored(db.may, a)
    requires cursor.Some? <==> after.Some?
    requires after.Some? ==> |cursor.value| == 32 && after.value == HexEncode(cursor.value)
    ensures Beyond(after, HexEncode(a)) && IsStoredAuthor(db, HexEncode(a))
  {
    HexIsBeyond(cursor, after, a);
  }

  ghost predicate IsStoredAuthor(db: SubDb, a: Text)
  {
    exists b :: |b| == 32 && a == HexEncode(b) && Authored(db.may, b)
  }

  lemma HexAllAscends(page: seq<bytes>)
    requires Ascending(page) && forall a :: a in page ==> |a| == 32
    ensures Ascending(HexAll(page))
  {
    forall i, j | 0 <= i < j < |page| ensures Lex(HexAll(page)[i], HexAll(page)[j]) {
      assert page[i] in page && page[j] in page;
      HexPreservesOrder(page[i], page[j]);
    }
  }

  lemma HexIsBeyond(cursor: Option<bytes>, after: Option<Text>, a: bytes)
    requires cursor.Some? <==> after.Some?
    requires after.Some? ==> |cursor.value| == |a| && after.value == HexEncode(cursor.value)
    ensures Beyond(cursor, a) <==> Beyond(after, HexEncode(a))
  {
    if after.Some? {
      HexPreservesOrder(cursor.value, a);
    }
  }

  /** The `authors` resolver: clamp the limit, decode the cursor, encode the page. */
  method ServeAuthors(db: SubDb, after: Option<Text>, limit: Option<int>) returns (r: AuthorsReply)
    requires db.Valid() && db.ord == OrderOf(EventPubkey)
    modifies db.env
    ensures r.InvalidCursor? <==> after.Some? && !IsCursor(after.value)
    ensures r.AuthorsPage? ==> IsReply(db, Normal(after), PageSize(limit), r)
  {
    var effective :=
      if limit.None? then 100 else if limit.value < 1 then 1 else if limit.value > 500 then 500 else limit.value;
    var cursor: Option<bytes> := None;
    if after.Some? {
      cursor := DecodeHex(after.value);
      if cursor.None? || |cursor.value| != 32 {
        return InvalidCursor;
      }
    }
    var page, next, _ := DistinctAuthors(db, cursor, effective);
    r := AuthorsPage(HexAll(page), if next.None? then None else Some(HexEncode(next.value)));
    PageIsReply(db, cursor, Normal(after), effective, page, next);
  }

  lemma PageIsReply(db: SubDb, cursor: Option<bytes>, after: Option<Text>, limit: nat, page: seq<bytes>,
                    next: Option<bytes>)
    requires limit >= 1 && IsAuthorPage(db, cursor, limit, page, next)
    requires cursor.Some? <==> after.Some?
    requires after.Some? ==> |cursor.value| == 32 && after.value == HexEncode(cursor.value)
    ensures
      IsReply(db, after, limit, AuthorsPage(HexAll(page), if next.None? then None else Some(HexEncode(next.value))))
  {
    var end := if next.None? then None else Some(HexEncode(next.value));
    HexPageIsListing(db, cursor, after, limit, page, next);
    forall must: set<Text> | StoredThroughout(db, must) ensures Honest(must, after, HexAll(page), end) {
      HexPageIsHonest(db, cursor, after, limit, page, next, must);
    }
    if next.Some? {
      CursorMovesUp(db, cursor, limit, page, next.value);
      HexDecodeOfEncode(next.value);
    }
  }

  /** Authors that are there throughout, in hex. */
  ghost predicate StoredThroughout(db: SubDb, must: set<Text>)
  {
    forall a :: a in must ==> exists b :: |b| == 32 && a == HexEncode(b) && Authored(db.must, b)
  }

  /**
   A page of the listing: honest about every author that is there throughout, with a cursor that can
   be handed back.
   */
  ghost predicate IsReply(db: SubDb, after: Option<Text>, n: nat, r: AuthorsReply)
    requires r.AuthorsPage?
  {
    && IsListing(db, after, n, r.authors, r.endCursor)
    && (forall must: set<Text> :: StoredThroughout(db, must) ==> Honest(must, after, r.authors, r.endCursor))
    && (r.endCursor.Some? ==> IsCursor(r.endCursor.value))
  }

  lemma HexPageIsHonest(db: SubDb, cursor: Option<bytes>, after: Option<Text>, limit: nat, page: seq<bytes>,
                        next: Option<bytes>, must: set<Text>)
    requires limit >= 1 && IsAuthorPage(db, cursor, limit, page, next)
    requires cursor.Some? <==> after.Some?
    requires after.Some? ==> |cursor.value| == 32 && after.value == HexEncode(cursor.value)
    requires StoredThroughout(db, must)
    ensures Honest(must, after, HexAll(page), if next.None? then None else Some(HexEncode(next.value)))
  {
    var end := if next.None? then None else Some(HexEncode(next.value));
    LexIsStrictTotalOrder();
    forall a | a in must && Beyond(after, a) && (end.None? || !Lex(end.value, a)) ensures a in HexAll(page) {
      var b :| |b| == 32 && a == HexEncode(b) && Authored(db.must, b);
      if cursor.Some? { HexPreservesOrder(cursor.value, b); }
      assert Beyond(cursor, b);
      if next.Some? {
        assert next.value in page;
        HexPreservesOrder(next.value, b);
      }
      assert b in page;
      var i :| 0 <= i < |page| && page[i] == b;
      assert HexAll(page)[i] == a;
    }
  }
}

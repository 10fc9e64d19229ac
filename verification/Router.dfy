/**
 Filters, events and routing: which index a filter is answered from, which keys an event has
 in each index, and why every event a filter accepts lies under one of the start keys.
 */
module Router {
  import opened Bytes
  import opened Comparators
  import opened Hex

  // ---------------------------------------------------------------------------
  // Events and filters
  // ---------------------------------------------------------------------------

  datatype Event = Event(id: Text, pubkey: Text, createdAt: u64, kind: u64, tags: seq<seq<Text>>)

  datatype TagFilter = TagFilter(name: Text, values: seq<Text>)

  datatype NostrFilter = NostrFilter(
    ids: Option<seq<Text>>,
    authors: Option<seq<Text>>,
    kinds: Option<seq<u64>>,
    tags: Option<seq<TagFilter>>,
    since: Option<u64>,
    until: Option<u64>,
    limit: nat)

  predicate IsHexKey(s: Text)
  {
    |s| == 64 && IsLowerHex(s)
  }

  /** What strfry has validated before it stored an event. */
  predicate WellFormed(ev: Event)
  {
    IsHexKey(ev.id) && IsHexKey(ev.pubkey)
  }

  ghost predicate TagMatches(tf: TagFilter, tag: seq<Text>)
  {
    |tag| >= 2 && tag[0] == tf.name && tag[1] in tf.values
  }

  // The four ways in which an event can fail a filter.

  ghost predicate FailsKind(f: NostrFilter, ev: Event)
  {
    f.kinds.Some? && ev.kind !in f.kinds.value
  }

  ghost predicate FailsAuthor(f: NostrFilter, ev: Event)
  {
    f.authors.Some? && ev.pubkey !in f.authors.value
  }

  ghost predicate FailsId(f: NostrFilter, ev: Event)
  {
    f.ids.Some? && ev.id !in f.ids.value
  }

  /** Some tag filter matches no tag of the event by name and value. */
  ghost predicate FailsTags(f: NostrFilter, ev: Event)
  {
    f.tags.Some? && exists tf :: tf in f.tags.value && forall tag :: tag in ev.tags ==> !TagMatches(tf, tag)
  }

  /** The residual check on a decoded event: OR within a field, AND across fields. */
  ghost predicate Residual(f: NostrFilter, ev: Event)
  {
    !FailsKind(f, ev) && !FailsAuthor(f, ev) && !FailsId(f, ev) && !FailsTags(f, ev)
  }

  method Lists<T(==)>(xs: seq<T>, x: T) returns (found: bool)
    ensures found <==> x in xs
  {
    for i := 0 to |xs|
      invariant x !in xs[..i]
    {
      if xs[i] == x {
        return true;
      }
    }
    found := false;
  }

  /** Whether some tag of the event has the name and one of the values. */
  method HasMatchingTag(tf: TagFilter, ev: Event) returns (found: bool)
    ensures found <==> exists tag :: tag in ev.tags && TagMatches(tf, tag)
  {
    for i := 0 to |ev.tags|
      invariant forall j :: 0 <= j < i ==> !TagMatches(tf, ev.tags[j])
    {
      var tag := ev.tags[i];
      if |tag| >= 2 && tag[0] == tf.name {
        var listed := Lists(tf.values, tag[1]);
        if listed {
          assert tag in ev.tags && TagMatches(tf, tag);
          return true;
        }
      }
    }
    found := false;
  }

  method HasAllTags(tags: seq<TagFilter>, ev: Event) returns (all: bool)
    ensures all <==> forall tf :: tf in tags ==> exists tag :: tag in ev.tags && TagMatches(tf, tag)
  {
    for i := 0 to |tags|
      invariant forall j :: 0 <= j < i ==> exists tag :: tag in ev.tags && TagMatches(tags[j], tag)
    {
      var found := HasMatchingTag(tags[i], ev);
      if !found {
        assert tags[i] in tags;
        return false;
      }
    }
    all := true;
  }

  /** The residual check as the source runs it: an event is dropped exactly if it fails one of the fields. */
  method PassesResidual(f: NostrFilter, ev: Event) returns (passes: bool)
    ensures !passes <==> FailsKind(f, ev) || FailsAuthor(f, ev) || FailsId(f, ev) || FailsTags(f, ev)
  {
    if f.kinds.Some? {
      var listed := Lists(f.kinds.value, ev.kind);
      if !listed {
        return false;
      }
    }
    if f.authors.Some? {
      var listed := Lists(f.authors.value, ev.pubkey);
      if !listed {
        return false;
      }
    }
    if f.ids.Some? {
      var listed := Lists(f.ids.value, ev.id);
      if !listed {
        return false;
      }
    }
    if f.tags.Some? {
      var all := HasAllTags(f.tags.value, ev);
      if !all {
        return false;
      }
    }
    passes := true;
  }

  /** AND across fields: a field added to a filter accepts exactly what passed before and meets that field alone. */
  lemma FieldsAreConjoined(f: NostrFilter, ev: Event, kinds: seq<u64>, texts: seq<Text>, tags: seq<TagFilter>,
                           tf: TagFilter)
    ensures f.kinds.None? ==> (Residual(f.(kinds := Some(kinds)), ev) <==> Residual(f, ev) && ev.kind in kinds)
    ensures f.authors.None? ==> (Residual(f.(authors := Some(texts)), ev) <==> Residual(f, ev) && ev.pubkey in texts)
    ensures f.ids.None? ==> (Residual(f.(ids := Some(texts)), ev) <==> Residual(f, ev) && ev.id in texts)
    ensures f.tags.None? ==> (Residual(f.(tags := Some([])), ev) <==> Residual(f, ev))
    ensures Residual(f.(tags := Some(tags + [tf])), ev) <==>
            Residual(f.(tags := Some(tags)), ev) && exists tag :: tag in ev.tags && TagMatches(tf, tag)
  {
    var more := f.(tags := Some(tags + [tf]));
    assert tf in more.tags.value && forall x :: x in tags ==> x in more.tags.value;
    assert forall x :: x in more.tags.value ==> x in tags || x == tf;
  }

  /** ASCII text as bytes. */
  function Ascii(s: string): (t: Text)
    requires forall i :: 0 <= i < |s| ==> s[i] < 128 as char
    ensures |t| == |s| && forall i :: 0 <= i < |s| ==> t[i] == s[i] as int
  {
    if s == [] then [] else [s[0] as int] + Ascii(s[1..])
  }

  const EXPIRATION: Text := Ascii("expiration")

  predicate IsDigit(b: byte)
  {
    0x30 <= b <= 0x39
  }

  predicate AllDigits(s: Text)
  {
    forall i :: 0 <= i < |s| ==> IsDigit(s[i])
  }

  function DigitsValue(s: Text): (n: nat)
    requires AllDigits(s)
  {
    if s == [] then 0
    else
      assert IsDigit(s[|s| - 1]);
      10 * DigitsValue(s[..|s| - 1]) + (s[|s| - 1] - 0x30)
  }

  function DropPlus(s: Text): (t: Text)
  {
    if |s| > 1 && s[0] == 0x2B then s[1..] else s
  }

  /** `str::parse::<u64>`: an optional plus sign, then digits only, no overflow. */
  function ParseU64(s: Text): (r: Option<u64>)
  {
    var digits := DropPlus(s);
    if digits == [] || !AllDigits(digits) || DigitsValue(digits) > U64_MAX then None else Some(DigitsValue(digits))
  }

  /** A number in decimal. */
  function Decimal(n: nat): (s: Text)
    ensures s != [] && AllDigits(s)
  {
    if n < 10 then [0x30 + n] else Decimal(n / 10) + [0x30 + n % 10]
  }

  function Zeros(k: nat): (s: Text)
    ensures |s| == k && forall i :: 0 <= i < k ==> s[i] == 0x30
  {
    if k == 0 then [] else Zeros(k - 1) + [0x30]
  }

  /** Digits are zeros and then the number in decimal. */
  lemma {:induction false} DigitsAreDecimal(s: Text) returns (k: nat)
    requires s != [] && AllDigits(s)
    ensures s == Zeros(k) + Decimal(DigitsValue(s))
  {
    var init, c := s[..|s| - 1], s[|s| - 1];
    assert s == init + [c];
    assert IsDigit(c);
    k := 0;
    if init != [] {
      k := DigitsAreDecimal(init);
      OneMoreDigit(init, c, k, DigitsValue(init));
      if DigitsValue(init) == 0 {
        k := k + 1;
      }
    }
  }

  lemma OneMoreDigit(init: Text, c: byte, k: nat, n: nat)
    requires IsDigit(c) && init == Zeros(k) + Decimal(n)
    ensures init + [c] == (if n == 0 then Zeros(k + 1) else Zeros(k)) + Decimal(10 * n + (c - 0x30))
  {
    if n == 0 {
      assert init == Zeros(k + 1);
    } else {
      assert Decimal(10 * n + (c - 0x30)) == Decimal(n) + [c];
    }
  }

  lemma {:induction false} ZerosAddNothing(k: nat, n: nat)
    ensures AllDigits(Zeros(k) + Decimal(n)) && DigitsValue(Zeros(k) + Decimal(n)) == n
    decreases k, n
  {
    var s := Zeros(k) + Decimal(n);
    if n < 10 {
      assert s[..|s| - 1] == Zeros(k);
      ZeroDigits(k);
    } else {
      ZerosAddNothing(k, n / 10);
      assert s[..|s| - 1] == Zeros(k) + Decimal(n / 10);
    }
  }

  lemma {:induction false} ZeroDigits(k: nat)
    ensures AllDigits(Zeros(k)) && DigitsValue(Zeros(k)) == 0
  {
    if k > 0 {
      ZeroDigits(k - 1);
      assert Zeros(k)[..k - 1] == Zeros(k - 1);
    }
  }

  /** `s` is the number n in decimal, with an optional plus sign and leading zeros. */
  ghost predicate IsNumeral(s: Text, n: nat)
  {
    exists k: nat :: s == Zeros(k) + Decimal(n) || s == [0x2B] + Zeros(k) + Decimal(n)
  }

  /** What is read as a timestamp: exactly the numerals of the numbers that fit in 64 bits. */
  lemma ParseExactly(s: Text, n: nat)
    ensures ParseU64(s) == Some(n) <==> n <= U64_MAX && IsNumeral(s, n)
  {
    if ParseU64(s) == Some(n) {
      var digits := DropPlus(s);
      var k := DigitsAreDecimal(digits);
      NumeralWithPlus(s, digits, k, n);
    }
    if n <= U64_MAX && IsNumeral(s, n) {
      var k: nat :| s == Zeros(k) + Decimal(n) || s == [0x2B] + Zeros(k) + Decimal(n);
      PlusIsDropped(s, k, n);
      ZerosAddNothing(k, n);
    }
  }

  lemma NumeralWithPlus(s: Text, digits: Text, k: nat, n: nat)
    requires digits == DropPlus(s) == Zeros(k) + Decimal(n)
    ensures IsNumeral(s, n)
  {
    if digits != s {
      assert s == [0x2B] + digits;
      assert s == [0x2B] + Zeros(k) + Decimal(n);
    }
  }

  lemma PlusIsDropped(s: Text, k: nat, n: nat)
    requires s == Zeros(k) + Decimal(n) || s == [0x2B] + Zeros(k) + Decimal(n)
    ensures DropPlus(s) == Zeros(k) + Decimal(n)
  {
    var digits := Zeros(k) + Decimal(n);
    ZerosAddNothing(k, n);
    assert IsDigit(digits[0]);
    if s != digits {
      assert s == [0x2B] + digits;
    }
  }

  ghost predicate ExpiresBy(tag: seq<Text>, now: u64)
  {
    |tag| >= 2 && tag[0] == EXPIRATION && ParseU64(tag[1]).Some? && 0 < ParseU64(tag[1]).value <= now
  }

  /** Some expiration tag names a time that has passed; zero and unreadable values never expire. */
  ghost predicate Expired(ev: Event, now: u64)
  {
    exists tag :: tag in ev.tags && ExpiresBy(tag, now)
  }

  /** `is_expired`, with the clock as a parameter. */
  method IsExpired(ev: Event, now: u64) returns (expired: bool)
    ensures expired == Expired(ev, now)
  {
    for i := 0 to |ev.tags|
      invariant forall j :: 0 <= j < i ==> !ExpiresBy(ev.tags[j], now)
    {
      var tag := ev.tags[i];
      if |tag| >= 2 && tag[0] == EXPIRATION {
        var exp := ParseU64(tag[1]);
        if exp.Some? && exp.value != 0 && exp.value <= now {
          assert tag in ev.tags && ExpiresBy(tag, now);
          return true;
        }
      }
    }
    expired := false;
  }

  /** A tag "expiration" with the numeral of n. */
  ghost predicate NamesExpiry(tag: seq<Text>, n: nat)
  {
    |tag| >= 2 && tag[0] == Ascii("expiration") && IsNumeral(tag[1], n)
  }

  /**
   Expiry in the terms of the tag: an event is expired exactly if it has a tag "expiration" whose value is a
   numeral of a number of 64 bits that is positive and not after the clock.
   */
  lemma ExpiredExactly(ev: Event, now: u64)
    ensures Expired(ev, now) <==>
            exists tag, n: nat :: tag in ev.tags && NamesExpiry(tag, n) && 0 < n <= now
  {
    if Expired(ev, now) {
      var tag :| tag in ev.tags && ExpiresBy(tag, now);
      ParseExactly(tag[1], ParseU64(tag[1]).value);
      assert NamesExpiry(tag, ParseU64(tag[1]).value);
    }
    forall tag, n: nat | tag in ev.tags && NamesExpiry(tag, n) && 0 < n <= now ensures Expired(ev, now) {
      ParseExactly(tag[1], n);
      assert ExpiresBy(tag, now);
    }
  }

  /** Once expired, an event stays expired. */
  lemma ExpiryIsFinal(ev: Event, now: u64, later: u64)
    requires now <= later && Expired(ev, now)
    ensures Expired(ev, later)
  {
  }

  // ---------------------------------------------------------------------------
  // The keys of an event
  // ---------------------------------------------------------------------------

  function Raw(hex: Text): (b: bytes)
  {
    match HexDecode(hex) case Some(b) => b case None => []
  }

  /** Tag values that are 64 lowercase hex digits are indexed as 32 bytes, all others as they are. */
  function TagValueBytes(value: Text): (b: bytes)
  {
    if IsHexKey(value) then Raw(value) else value
  }

  function TagPrefix(name: byte, value: Text): (p: bytes)
    ensures |p| >= 1
  {
    [name] + TagValueBytes(value)
  }

  /**
   The layout of a tag prefix: the name, then 32 bytes for 64 lowercase hex digits, which encode back to
   the value, and the value itself for any other text.
   */
  lemma TagPrefixLayout(name: byte, value: Text)
    ensures var p := TagPrefix(name, value);
            if |value| == 64 && (forall i :: 0 <= i < 64 ==> IsLowerHexDigit(value[i]))
            then |p| == 33 && p[0] == name && HexEncode(p[1..]) == value
            else p == [name] + value
  {
    if IsHexKey(value) {
      HexEncodeOfDecode(value);
    }
    assert TagPrefix(name, value)[1..] == TagValueBytes(value);
  }

  /** A well-formed id or pubkey is the lowercase encoding of 32 bytes. */
  lemma HexKeyIsEncoding(s: Text)
    ensures IsHexKey(s) <==> exists b: bytes :: |b| == 32 && s == HexEncode(b)
  {
    if IsHexKey(s) {
      HexEncodeOfDecode(s);
      assert |HexDecode(s).value| == 32;
    }
  }

  ghost function TagKeys(ev: Event): (ks: set<Key>)
  {
    set i | 0 <= i < |ev.tags| && |ev.tags[i]| >= 2 && |ev.tags[i][0]| == 1 ::
      Key(TagPrefix(ev.tags[i][0][0], ev.tags[i][1]), ev.createdAt)
  }

  /** The keys strfry writes for an event, index by index. */
  ghost function IndexKeys(kind: IndexKind, ev: Event): (ks: set<Key>)
  {
    match kind
    case EventId => {Key(Raw(ev.id), ev.createdAt)}
    case EventPubkey => {Key(Raw(ev.pubkey), ev.createdAt)}
    case EventKind => {Key(LeBytes(ev.kind, 8), ev.createdAt)}
    case EventPubkeyKind => {Key(Raw(ev.pubkey) + LeBytes(ev.kind, 8), ev.createdAt)}
    case EventTag => TagKeys(ev)
    case EventCreatedAt => {Key([], ev.createdAt)}
  }

  lemma IndexKeysAreOk(kind: IndexKind, ev: Event, k: Key)
    requires WellFormed(ev) && k in IndexKeys(kind, ev)
    ensures PrefixOk(kind, k.prefix) && k.ts == ev.createdAt
  {
    HexEncodeOfDecode(ev.id);
    HexEncodeOfDecode(ev.pubkey);
  }

  // ---------------------------------------------------------------------------
  // Index selection and start keys
  // ---------------------------------------------------------------------------

  /** The most selective index that applies; the global feed only when no field is given. */
  function SelectIndex(f: NostrFilter): (kind: IndexKind)
    ensures kind.EventId? <==> f.ids.Some?
    ensures kind.EventPubkeyKind? <==> f.ids.None? && f.authors.Some? && f.kinds.Some?
    ensures kind.EventPubkey? <==> f.ids.None? && f.authors.Some? && f.kinds.None?
    ensures kind.EventKind? <==> f.ids.None? && f.authors.None? && f.kinds.Some?
    ensures kind.EventTag? <==> f.ids.None? && f.authors.None? && f.kinds.None? && f.tags.Some?
    ensures kind.EventCreatedAt? <==> f.ids.None? && f.authors.None? && f.kinds.None? && f.tags.None?
  {
    if f.ids.Some? then EventId
    else if f.authors.Some? && f.kinds.Some? then EventPubkeyKind
    else if f.authors.Some? then EventPubkey
    else if f.kinds.Some? then EventKind
    else if f.tags.Some? then EventTag
    else EventCreatedAt
  }

  function Items<T>(o: Option<seq<T>>): (s: seq<T>)
  {
    match o case Some(s) => s case None => []
  }

  /** A 32-byte id or pubkey, if the text denotes one. */
  function Hex32(hex: Text): (r: Option<bytes>)
    ensures r.Some? ==> |r.value| == 32
  {
    var d := HexDecode(hex);
    if d.Some? && |d.value| == 32 then d else None
  }

  /** The texts that denote 32 bytes: 64 hex digits of either case. */
  lemma Hex32Exactly(hex: Text)
    ensures Hex32(hex).Some? <==> |hex| == 64 && forall i :: 0 <= i < 64 ==> IsHexDigit(hex[i])
    ensures Hex32(hex).Some? ==> HexEncode(Hex32(hex).value) == Lower(hex)
  {
    HexDecodeExactly(hex);
  }

  /** The prefixes a filter asks for in an index. */
  ghost predicate AsksFor(f: NostrFilter, kind: IndexKind, p: bytes)
  {
    match kind
    case EventId => exists s :: s in Items(f.ids) && Hex32(s) == Some(p)
    case EventPubkey => exists s :: s in Items(f.authors) && Hex32(s) == Some(p)
    case EventKind => exists n :: n in Items(f.kinds) && p == LeBytes(n, 8)
    case EventPubkeyKind =>
      exists s, n ::
        s in Items(f.authors) && n in Items(f.kinds) && Hex32(s).Some? && p == Hex32(s).value + LeBytes(n, 8)
    case EventTag =>
      exists tf, v :: tf in Items(f.tags) && |tf.name| == 1 && v in tf.values && p == TagPrefix(tf.name[0], v)
    case EventCreatedAt => p == []
  }

  lemma AskedPrefixesAreOk(f: NostrFilter, kind: IndexKind, p: bytes)
    requires AsksFor(f, kind, p)
    ensures PrefixOk(kind, p)
  {
  }

  method Prefix32(hexes: seq<Text>) returns (out: seq<bytes>)
    ensures forall p :: p in out <==> exists s :: s in hexes && Hex32(s) == Some(p)
  {
    out := [];
    for i := 0 to |hexes|
      invariant forall p :: p in out ==> exists s :: s in hexes && Hex32(s) == Some(p)
      invariant forall j :: 0 <= j < i && Hex32(hexes[j]).Some? ==> Hex32(hexes[j]).value in out
    {
      assert hexes[i] in hexes;
      var d := DecodeHex(hexes[i]);
      if d.Some? && |d.value| == 32 {
        out := out + [d.value];
      }
    }
  }

  method KindPrefixes(kinds: seq<u64>) returns (out: seq<bytes>)
    ensures forall p :: p in out <==> exists n :: n in kinds && p == LeBytes(n, 8)
  {
    out := [];
    for i := 0 to |kinds|
      invariant forall p :: p in out ==> exists n :: n in kinds && p == LeBytes(n, 8)
      invariant forall j :: 0 <= j < i ==> LeBytes(kinds[j], 8) in out
    {
      assert kinds[i] in kinds;
      out := out + [LeBytes(kinds[i], 8)];
    }
  }

  /** All concatenations of a left and a right part, left by left. */
  method Pairs(left: seq<bytes>, right: seq<bytes>) returns (out: seq<bytes>)
    ensures forall p :: p in out <==> exists l, r :: l in left && r in right && p == l + r
  {
    out := [];
    for i := 0 to |left|
      invariant forall p :: p in out <==> exists l, r :: l in left[..i] && r in right && p == l + r
    {
      assert left[..i + 1] == left[..i] + [left[i]];
      for j := 0 to |right|
        invariant forall p :: p in out <==>
                    (exists l, r :: l in left[..i] && r in right && p == l + r) ||
                    (exists r :: r in right[..j] && p == left[i] + r)
      {
        assert right[..j + 1] == right[..j] + [right[j]];
        out := out + [left[i] + right[j]];
      }
      assert right[..|right|] == right;
    }
    assert left[..|left|] == left;
  }

  method TagPrefixes(tags: seq<TagFilter>) returns (out: seq<bytes>)
    ensures forall p :: p in out <==>
              exists tf, v :: tf in tags && |tf.name| == 1 && v in tf.values && p == TagPrefix(tf.name[0], v)
  {
    out := [];
    for i := 0 to |tags|
      invariant forall p :: p in out <==>
                  exists tf, v :: tf in tags[..i] && |tf.name| == 1 && v in tf.values && p == TagPrefix(tf.name[0], v)
    {
      assert tags[..i + 1] == tags[..i] + [tags[i]];
      var tag := tags[i];
      if |tag.name| == 1 {
        for j := 0 to |tag.values|
          invariant forall p :: p in out <==>
                      (exists tf, v ::
                         tf in tags[..i] && |tf.name| == 1 && v in tf.values && p == TagPrefix(tf.name[0], v)) ||
                      (exists v :: v in tag.values[..j] && p == TagPrefix(tag.name[0], v))
        {
          assert tag.values[..j + 1] == tag.values[..j] + [tag.values[j]];
          out := out + [TagPrefix(tag.name[0], tag.values[j])];
        }
        assert tag.values[..|tag.values|] == tag.values;
      }
    }
    assert tags[..|tags|] == tags;
  }

  /** `sort` then `dedup`: the same keys, in byte order, each once. */
  method SortDedup(keys: seq<bytes>) returns (out: seq<bytes>)
    ensures Ascending(out)
    ensures forall k :: k in out <==> k in keys
  {
    out := [];
    for i := 0 to |keys|
      invariant Ascending(out)
      invariant forall k :: k in out <==> k in keys[..i]
    {
      assert keys[..i + 1] == keys[..i] + [keys[i]];
      var j := 0;
      while j < |out| && Lex(out[j], keys[i])
        invariant j <= |out| && forall m :: 0 <= m < j ==> Lex(out[m], keys[i])
      {
        j := j + 1;
      }
      if j == |out| || out[j] != keys[i] {
        InsertKeepsOrder(out, j, keys[i]);
        out := out[..j] + [keys[i]] + out[j..];
      }
    }
    assert keys[..|keys|] == keys;
  }

  lemma InsertKeepsOrder(s: seq<bytes>, j: nat, k: bytes)
    requires Ascending(s) && j <= |s|
    requires forall m :: 0 <= m < j ==> Lex(s[m], k)
    requires j < |s| ==> s[j] != k && !Lex(s[j], k)
    ensures Ascending(s[..j] + [k] + s[j..])
    ensures forall x :: x in s[..j] + [k] + s[j..] <==> x in s || x == k
  {
    LexIsStrictTotalOrder();
    var t := s[..j] + [k] + s[j..];
    forall m | j <= m < |s| ensures Lex(k, s[m]) {
      assert Lex(k, s[j]);
    }
    assert s == s[..j] + s[j..];
  }

  /**
   One start key per prefix the filter asks for, all with the timestamp bound `ts`, sorted and
   without duplicates.
   */
  method BuildStartKeys(f: NostrFilter, kind: IndexKind, ts: u64) returns (keys: seq<Key>)
    ensures forall k :: k in keys <==> k.ts == ts && AsksFor(f, kind, k.prefix)
    ensures forall i, j :: 0 <= i < j < |keys| ==> keys[i].prefix != keys[j].prefix
    ensures forall i, j :: 0 <= i < j < |keys| ==> Lex(Encode(keys[i]), Encode(keys[j]))
  {
    var prefixes := BuildPrefixes(f, kind);
    var raw: seq<bytes> := [];
    for i := 0 to |prefixes|
      invariant |raw| == i && forall j :: 0 <= j < i ==> raw[j] == Encode(Key(prefixes[j], ts))
    {
      raw := raw + [prefixes[i] + LeBytes(ts, 8)];
    }
    var sorted := SortDedup(raw);
    LexIsStrictTotalOrder();
    keys := [];
    for i := 0 to |sorted|
      invariant |keys| == i
      invariant forall j :: 0 <= j < i ==>
                  Encode(keys[j]) == sorted[j] && keys[j].ts == ts && keys[j].prefix in prefixes
    {
      assert sorted[i] in raw;
      var j :| 0 <= j < |raw| && raw[j] == sorted[i];
      KeyBytesRoundTrip(Key(prefixes[j], ts), sorted[i]);
      keys := keys + [Decode(sorted[i])];
    }
    forall k: Key | k.ts == ts && AsksFor(f, kind, k.prefix) ensures k in keys {
      var j :| 0 <= j < |prefixes| && prefixes[j] == k.prefix;
      assert raw[j] == Encode(k);
      assert raw[j] in raw;
      assert Encode(k) in sorted;
      var i :| 0 <= i < |sorted| && sorted[i] == Encode(k);
      KeyBytesRoundTrip(k, []);
      KeyBytesRoundTrip(keys[i], []);
      assert keys[i] == k;
    }
  }

  method BuildPrefixes(f: NostrFilter, kind: IndexKind) returns (prefixes: seq<bytes>)
    ensures forall p :: p in prefixes <==> AsksFor(f, kind, p)
  {
    match kind
    case EventId => prefixes := Prefix32(Items(f.ids));
    case EventPubkey => prefixes := Prefix32(Items(f.authors));
    case EventKind => prefixes := KindPrefixes(Items(f.kinds));
    case EventPubkeyKind =>
      var left := Prefix32(Items(f.authors));
      var right := KindPrefixes(Items(f.kinds));
      prefixes := Pairs(left, right);
      forall p ensures p in prefixes <==> AsksFor(f, kind, p) {
        PairsAreAsked(f, left, right, p);
      }
    case EventTag => prefixes := TagPrefixes(Items(f.tags));
    case EventCreatedAt => prefixes := [[]];
  }

  lemma PairsAreAsked(f: NostrFilter, left: seq<bytes>, right: seq<bytes>, p: bytes)
    requires forall l :: l in left <==> exists s :: s in Items(f.authors) && Hex32(s) == Some(l)
    requires forall r :: r in right <==> exists n :: n in Items(f.kinds) && r == LeBytes(n, 8)
    ensures (exists l, r :: l in left && r in right && p == l + r) <==> AsksFor(f, EventPubkeyKind, p)
  {
  }

  // ---------------------------------------------------------------------------
  // Routing preserves meaning
  // ---------------------------------------------------------------------------

  predicate HasOneByteTag(f: NostrFilter)
  {
    exists tf :: tf in Items(f.tags) && |tf.name| == 1
  }

  /** The event has a key under one of the start prefixes of the selected index. */
  ghost predicate Reached(f: NostrFilter, ev: Event)
  {
    exists k :: k in IndexKeys(SelectIndex(f), ev) && AsksFor(f, SelectIndex(f), k.prefix)
  }

  /**
   An event the filter accepts is reached through the selected index, except that a filter
   routed to the tag index needs a tag name of one byte; without one nothing is reached.
   */
  lemma AcceptedEventsAreReachedIff(f: NostrFilter, ev: Event)
    requires WellFormed(ev) && Residual(f, ev)
    ensures Reached(f, ev) <==> (SelectIndex(f).EventTag? ==> HasOneByteTag(f))
  {
    HexEncodeOfDecode(ev.id);
    HexEncodeOfDecode(ev.pubkey);
    assert Hex32(ev.id) == Some(Raw(ev.id)) && Hex32(ev.pubkey) == Some(Raw(ev.pubkey));
    match SelectIndex(f)
    case EventId => assert AsksFor(f, EventId, Key(Raw(ev.id), ev.createdAt).prefix);
    case EventPubkey => assert AsksFor(f, EventPubkey, Key(Raw(ev.pubkey), ev.createdAt).prefix);
    case EventKind => assert AsksFor(f, EventKind, Key(LeBytes(ev.kind, 8), ev.createdAt).prefix);
    case EventPubkeyKind =>
      assert AsksFor(f, EventPubkeyKind, Key(Raw(ev.pubkey) + LeBytes(ev.kind, 8), ev.createdAt).prefix);
    case EventTag =>
      if HasOneByteTag(f) {
        var tf :| tf in Items(f.tags) && |tf.name| == 1;
        var tag :| tag in ev.tags && TagMatches(tf, tag);
        var i :| 0 <= i < |ev.tags| && ev.tags[i] == tag;
        var k := Key(TagPrefix(tag[0][0], tag[1]), ev.createdAt);
        assert k in TagKeys(ev);
        assert AsksFor(f, EventTag, k.prefix);
      }
    case EventCreatedAt => assert AsksFor(f, EventCreatedAt, Key([], ev.createdAt).prefix);
  }

  /** A two-byte tag name is accepted by the API: an event carries the tag, passes the check and is not reached. */
  lemma LongTagNameIsNotReached(ev: Event)
    requires WellFormed(ev) && [[0x74, 0x74], [0x61]] in ev.tags
    ensures
      var f := NostrFilter(None, None, None, Some([TagFilter([0x74, 0x74], [[0x61]])]), None, None, 10);
      Residual(f, ev) && !Reached(f, ev)
  {
  }
}

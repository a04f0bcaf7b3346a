/** The decoder accepts exactly the definite-length encodings, gives each its meaning, and looks at nothing
    behind them. */
module CborLaws {
  import opened Cbor

  // ---- Encodings ----

  /** A data item with the width chosen for each of its lengths and numbers. */
  datatype Item =
    | Num(negative: bool, w: Width, n: nat)
    | Str(text: bool, w: Width, bytes: Bytes)
    | Dict(w: Width, entries: Entries)

  datatype Entries = Nil | Entry(key: Item, val: Item, tail: Entries)

  function Count(es: Entries): nat { if es.Nil? then 0 else 1 + Count(es.tail) }

  predicate Fits(w: Width, n: nat) { n < if w == Direct then 24 else Pow256(Extra(w)) }

  function Head(major: nat, w: Width, n: nat): (h: Bytes)
    requires major < 8 && Fits(w, n)
    ensures |h| == 1 + Extra(w)
  {
    [32 * major + if w == Direct then n else Code(w)] + ToBE(n, Extra(w))
  }

  /** Strings end below 2^63. */
  predicate Proper(item: Item) {
    match item
    case Num(_, w, n) => Fits(w, n)
    case Str(_, w, s) => Fits(w, |s|) && 1 + Extra(w) + |s| < Two63
    case Dict(w, es) => Fits(w, Count(es)) && ProperAll(es, false)
  }

  predicate ProperAll(es: Entries, textKeys: bool) {
    es.Nil? || (Proper(es.key) && Proper(es.val) && KeyItem(es.key, textKeys) && ProperAll(es.tail, textKeys))
  }

  predicate KeyItem(key: Item, textKeys: bool) { if textKeys then key.Str? && key.text else key.Num? }

  function Encode(item: Item): Bytes
    requires Proper(item)
  {
    match item
    case Num(negative, w, n) => Head(if negative then 1 else 0, w, n)
    case Str(text, w, s) => Head(if text then 3 else 2, w, |s|) + s
    case Dict(w, es) => Head(5, w, Count(es)) + EncodeAll(es, false)
  }

  function EncodeAll(es: Entries, textKeys: bool): Bytes
    requires ProperAll(es, textKeys)
  {
    if es.Nil? then [] else Encode(es.key) + Encode(es.val) + EncodeAll(es.tail, textKeys)
  }

  function Meaning(item: Item): Value
    requires Proper(item)
  {
    match item
    case Num(negative, _, n) => Int(if negative then -1 - Signed(n) else Signed(n))
    case Str(text, _, s) => if text then Text(s) else Blob(s)
    case Dict(_, es) => Map(IntMap(MeaningAll(es, false)))
  }

  function MeaningAll(es: Entries, textKeys: bool): (ps: Pairs)
    requires ProperAll(es, textKeys)
    ensures forall p | p in ps :: KeyFits(p.0, textKeys)
  {
    if es.Nil? then [] else [(Meaning(es.key), Meaning(es.val))] + MeaningAll(es.tail, textKeys)
  }

  // ---- Heads ----

  lemma FirstByte(major: nat, low: nat)
    requires major < 8 && low < 32
    ensures (32 * major + low) / 32 == major && (32 * major + low) % 32 == low
  {
  }

  lemma HeadParses(major: nat, w: Width, n: nat, rest: Bytes)
    requires major < 8 && Fits(w, n)
    ensures ParseLen(Head(major, w, n) + rest) == Ok(n, 1 + Extra(w))
    ensures (Head(major, w, n) + rest)[0] / 32 == major
  {
    hide ToBE, FromBE, Pow256;
    var b := Head(major, w, n) + rest;
    FirstByte(major, if w == Direct then n else Code(w));
    if w != Direct {
      assert b[1..1 + Extra(w)] == ToBE(n, Extra(w));
      ToFromBE(n, Extra(w));
    }
  }

  lemma NoBytes(n: nat)
    ensures ToBE(n, 0) == []
  {
  }

  lemma HeadOf(b: Bytes) returns (w: Width)
    requires ParseLen(b).Ok?
    ensures var r := ParseLen(b);
      Fits(w, r.value) && r.used == 1 + Extra(w) && Head(b[0] / 32, w, r.value) == b[..r.used]
  {
    hide ToBE, FromBE, Pow256;
    w := WidthOf(b[0] % 32);
    assert b[0] == 32 * (b[0] / 32) + b[0] % 32;
    NoBytes(b[0] % 32);
    if w != Direct {
      FromToBE(b[1..1 + Extra(w)]);
    }
  }

  // ---- Every encoding is read ----

  lemma StringParses(h: Bytes, s: Bytes, rest: Bytes)
    requires 1 <= |h| <= 9 && |h| + |s| < Two63
    ensures ParseString(h + s + rest, |h|, |s|) == Ok(s, |h| + |s|)
  {
  }

  lemma {:induction false} ReadsBack(item: Item, rest: Bytes)
    requires Proper(item)
    ensures ParseValue(Encode(item) + rest) == Ok(Meaning(item), |Encode(item)|)
    decreases item
  {
    hide ParsePairs, ParseEntry, ParseLen, ParseString, Head, ToBE, IntMap, Fits;
    match item
    case Num(negative, w, n) => HeadParses(if negative then 1 else 0, w, n, rest);
    case Str(text, w, s) =>
      var major := if text then 3 else 2;
      var h := Head(major, w, |s|);
      assert h + s + rest == h + (s + rest);
      HeadParses(major, w, |s|, s + rest);
      StringParses(h, s, rest);
    case Dict(w, es) =>
      var h := Head(5, w, Count(es));
      var body := EncodeAll(es, false);
      assert h + body + rest == h + (body + rest);
      HeadParses(5, w, Count(es), body + rest);
      assert (h + (body + rest))[|h|..] == body + rest;
      ReadsBackAll(es, false, rest);
  }

  lemma {:induction false} ReadsBackAll(es: Entries, textKeys: bool, rest: Bytes)
    requires ProperAll(es, textKeys)
    ensures ParsePairs(EncodeAll(es, textKeys) + rest, Count(es), textKeys) == Ok(MeaningAll(es, textKeys), |EncodeAll(es, textKeys)|)
    decreases es
  {
    hide ParseValue, ParseEntry, ParsePairs, After, Encode, Meaning, Proper;
    if es.Nil? {
      NothingParses(EncodeAll(es, textKeys) + rest, textKeys);
    } else {
      var key, val, tail := Encode(es.key), Encode(es.val), EncodeAll(es.tail, textKeys);
      var b := EncodeAll(es, textKeys) + rest;
      assert b == key + (val + (tail + rest));
      Shifted(key, val, tail + rest);
      ReadsBack(es.key, val + (tail + rest));
      ReadsBack(es.val, tail + rest);
      KeyMeans(es.key, textKeys);
      EntryParses(b, key, val, tail + rest, textKeys);
      ReadsBackAll(es.tail, textKeys, rest);
      PairsParse(b, Count(es), textKeys);
    }
  }

  lemma NothingParses(b: Bytes, textKeys: bool)
    ensures ParsePairs(b, 0, textKeys) == Ok([], 0)
  {
  }

  lemma PairsParse(b: Bytes, n: nat, textKeys: bool)
    requires n > 0 && ParseEntry(b, textKeys).Ok?
    requires ParsePairs(b[ParseEntry(b, textKeys).used..], n - 1, textKeys).Ok?
    ensures
      var first := ParseEntry(b, textKeys);
      var rest := ParsePairs(b[first.used..], n - 1, textKeys);
      ParsePairs(b, n, textKeys) == Ok([first.value] + rest.value, first.used + rest.used)
  {
    hide ParseEntry;
  }

  lemma Shifted(a: Bytes, b: Bytes, c: Bytes)
    ensures (a + (b + c))[|a|..] == b + c && (a + (b + c))[|a| + |b|..] == c
  {
  }

  lemma EntryParses(b: Bytes, key: Bytes, val: Bytes, rest: Bytes, textKeys: bool)
    requires b == key + (val + rest)
    requires ParseValue(b).Ok? && ParseValue(b).used == |key| && KeyFits(ParseValue(b).value, textKeys)
    requires ParseValue(val + rest).Ok? && ParseValue(val + rest).used == |val|
    ensures ParseEntry(b, textKeys) == Ok((ParseValue(b).value, ParseValue(val + rest).value), |key| + |val|)
  {
    hide ParseValue;
    Shifted(key, val, rest);
  }

  lemma KeyMeans(key: Item, textKeys: bool)
    requires Proper(key)
    ensures KeyItem(key, textKeys) <==> KeyFits(Meaning(key), textKeys)
  {
  }

  // ---- Whatever is read is an encoding ----

  lemma {:induction false} ItemRead(b: Bytes) returns (item: Item)
    requires ParseValue(b).Ok?
    ensures Proper(item) && Encode(item) == b[..ParseValue(b).used] && Meaning(item) == ParseValue(b).value
    decreases |b|, 0
  {
    hide ParsePairs, ParseLen, Head, ToBE, IntMap, Fits;
    var w := HeadOf(b);
    var n, hdr, major := ParseLen(b).value, ParseLen(b).used, b[0] / 32;
    if major < 2 {
      item := Num(major == 1, w, n);
    } else if major < 4 {
      item := Str(major == 3, w, b[hdr..hdr + n]);
      assert b[..hdr] + b[hdr..hdr + n] == b[..hdr + n];
    } else {
      var es := ItemsRead(b[hdr..], n, false);
      item := Dict(w, es);
      var used := ParsePairs(b[hdr..], n, false).used;
      assert b[..hdr] + b[hdr..][..used] == b[..hdr + used];
    }
  }

  lemma {:induction false} ItemsRead(b: Bytes, n: nat, textKeys: bool) returns (es: Entries)
    requires ParsePairs(b, n, textKeys).Ok?
    ensures Count(es) == n && ProperAll(es, textKeys)
    ensures EncodeAll(es, textKeys) == b[..ParsePairs(b, n, textKeys).used]
    ensures MeaningAll(es, textKeys) == ParsePairs(b, n, textKeys).value
    decreases |b|, 1, n
  {
    hide ParseValue, ParsePairs, Encode, Meaning, Proper;
    es := Nil;
    if n == 0 {
      NothingParses(b, textKeys);
      assert b[..0] == [];
    } else {
      FirstPairRead(b, n, textKeys);
      var key := ItemRead(b);
      var kn := ParseValue(b).used;
      var val := ItemRead(b[kn..]);
      var vn := ParseValue(b[kn..]).used;
      KeyMeans(key, textKeys);
      var tail := ItemsRead(b[kn + vn..], n - 1, textKeys);
      es := Entry(key, val, tail);
      ThreeSlices(b, kn, vn, ParsePairs(b[kn + vn..], n - 1, textKeys).used);
    }
  }

  lemma ThreeSlices(b: Bytes, i: nat, j: nat, k: nat)
    requires i + j + k <= |b|
    ensures b[..i] + b[i..][..j] + b[i + j..][..k] == b[..i + j + k]
  {
  }

  /** Pairs that were read begin with a key, its value and the other pairs. */
  lemma FirstPairRead(b: Bytes, n: nat, textKeys: bool)
    requires n > 0 && ParsePairs(b, n, textKeys).Ok?
    ensures ParseValue(b).Ok? && ParseValue(b[ParseValue(b).used..]).Ok? && KeyFits(ParseValue(b).value, textKeys)
    ensures
      var kn := ParseValue(b).used;
      var vn := ParseValue(b[kn..]).used;
      var rest := ParsePairs(b[kn + vn..], n - 1, textKeys);
      && rest.Ok?
      && ParsePairs(b, n, textKeys) == Ok([(ParseValue(b).value, ParseValue(b[kn..]).value)] + rest.value, kn + vn + rest.used)
  {
    hide ParseValue;
  }

  // ---- Main results ----

  /** The decoder yields `v` from the first `k` bytes exactly when they encode an item that means `v`. */
  lemma DecodesIff(b: Bytes, v: Value, k: nat)
    requires k <= |b|
    ensures ParseValue(b) == Ok(v, k) <==> exists item: Item :: Proper(item) && Encode(item) == b[..k] && Meaning(item) == v
  {
    hide ParseValue, Encode, Meaning, Proper;
    if ParseValue(b) == Ok(v, k) {
      var item := ItemRead(b);
    }
    if item: Item :| Proper(item) && Encode(item) == b[..k] && Meaning(item) == v {
      assert b == Encode(item) + b[k..];
      ReadsBack(item, b[k..]);
    }
  }

  /** What follows the item does not matter. */
  lemma LooksNoFurther(b: Bytes, rest: Bytes)
    requires ParseValue(b).Ok?
    ensures ParseValue(b[..ParseValue(b).used] + rest) == ParseValue(b)
  {
    hide ParseValue, Encode, Meaning, Proper;
    var item := ItemRead(b);
    ReadsBack(item, rest);
  }

  /** No encoding is a proper prefix of another: a cut-off item is never accepted. */
  lemma CutOffIsRefused(b: Bytes, j: nat)
    requires ParseValue(b).Ok? && j < ParseValue(b).used
    ensures !ParseValue(b[..j]).Ok?
  {
    hide ParseValue;
    if ParseValue(b[..j]).Ok? {
      var k := ParseValue(b[..j]).used;
      assert b == b[..j][..k] + b[k..];
      LooksNoFurther(b[..j], b[k..]);
    }
  }

  /** A string whose length puts its end at 2^63 or beyond panics; any other is read or refused. */
  lemma StringPanicsIff(b: Bytes, hdr: nat, n: nat)
    requires 1 <= hdr <= |b| < Two63 && hdr <= 9 && n < Two64
    ensures ParseString(b, hdr, n).Panic? <==> hdr + n >= Two63
    ensures ParseString(b, hdr, n).Ok? <==> hdr + n <= |b|
  {
  }

  // ---- Every value has an encoding ----

  predicate Encodable(v: Value) {
    match v
    case Int(i) => -Two63 <= i < Two63
    case Blob(s) => |s| < Two63 - 9
    case Text(s) => |s| < Two63 - 9
    case Map(m) => |m| < Two64 && forall k | k in m :: -Two63 <= k < Two63 && Encodable(m[k])
  }

  function Shortest(n: nat): (w: Width)
    requires n < Two64
    ensures Fits(w, n)
  {
    LimitOf(8);
    if n < 24 then Direct else if n < Pow256(1) then One else if n < Pow256(2) then Two
    else if n < Pow256(4) then Four else Eight
  }

  function NumOf(i: int): (item: Item)
    requires -Two63 <= i < Two63
    ensures Proper(item) && Meaning(item) == Int(i)
  {
    if i >= 0 then Num(false, Shortest(i), i) else Num(true, Shortest(-1 - i), -1 - i)
  }

  ghost function ItemOf(v: Value): (item: Item)
    requires Encodable(v)
    ensures Proper(item) && Meaning(item) == v
    decreases v, 1
  {
    match v
    case Int(i) => NumOf(i)
    case Blob(s) => Str(false, Shortest(|s|), s)
    case Text(s) => Str(true, Shortest(|s|), s)
    case Map(m) =>
      var es := EntriesOf(v, m.Keys);
      RestrictAll(m);
      Dict(Shortest(|m|), es)
  }

  ghost function Pick(keys: set<int>): (k: int)
    requires keys != {}
    ensures k in keys
  {
    assert (forall k :: k !in keys) ==> keys == {};
    var k :| k in keys;
    k
  }

  ghost function Restrict(m: map<int, Value>, keys: set<int>): map<int, Value>
    requires keys <= m.Keys
  {
    map k | k in keys :: m[k]
  }

  lemma RestrictFirst(m: map<int, Value>, keys: set<int>, k: int)
    requires keys <= m.Keys && k in keys
    ensures map[k := m[k]] + Restrict(m, keys - {k}) == Restrict(m, keys)
  {
  }

  lemma EmptyMaps(m: map<int, Value>)
    ensures Restrict(m, {}) == map[] && IntMap([]) == map[]
  {
  }

  lemma RestrictAll(m: map<int, Value>)
    ensures Restrict(m, m.Keys) == m && |m.Keys| == |m|
  {
  }

  /** The entries of a map under `keys`, in any order. */
  ghost function EntriesOf(v: Value, keys: set<int>): (es: Entries)
    requires Encodable(v) && v.Map? && keys <= v.entries.Keys
    ensures Count(es) == |keys| && ProperAll(es, false)
    ensures IntMap(MeaningAll(es, false)) == Restrict(v.entries, keys)
    decreases v, 0, |keys|
  {
    hide Restrict, IntMap, Proper, Meaning;
    if keys == {} then EmptyMaps(v.entries); Nil
    else
      var k := Pick(keys);
      var tail := EntriesOf(v, keys - {k});
      var es := Entry(NumOf(k), ItemOf(v.entries[k]), tail);
      RestrictFirst(v.entries, keys, k);
      FirstIsOverwritten((Int(k), v.entries[k]), MeaningAll(tail, false));
      es
  }

  lemma {:induction false} FirstIsOverwritten(p: (Value, Value), ps: Pairs)
    requires p.0.Int? && forall q | q in ps :: q.0.Int?
    ensures IntMap([p] + ps) == map[p.0.i := p.1] + IntMap(ps)
    decreases |ps|
  {
    if ps == [] {
      assert [p] + ps == [p] && [p][..0] == [];
    } else {
      var front, last := ps[..|ps| - 1], ps[|ps| - 1];
      assert ([p] + ps)[..|ps|] == [p] + front;
      FirstIsOverwritten(p, front);
    }
  }

  /** Decoding what the encoder writes for `v`, whatever follows, gives `v` and the encoder's length. */
  lemma RoundTrip(v: Value, rest: Bytes)
    requires Encodable(v)
    ensures ParseValue(Encode(ItemOf(v)) + rest) == Ok(v, |Encode(ItemOf(v))|)
  {
    ReadsBack(ItemOf(v), rest);
  }

  // ---- Where it panics ----

  /** Where a decoder can stand inside nested maps: in the value itself, or behind complete entries of a map that has
      more to come, perhaps also behind the key of the next entry. */
  datatype Place = Here | InMap(w: Width, n: nat, done: Entries, key: Key, inner: Place)

  datatype Key = NoKey | AfterKey(item: Item)

  predicate Reachable(p: Place) {
    p.InMap? ==>
      && Fits(p.w, p.n) && Count(p.done) < p.n && ProperAll(p.done, false)
      && (p.key.AfterKey? ==> Proper(p.key.item)) && Reachable(p.inner)
  }

  /** The bytes before that place. */
  function Before(p: Place): Bytes
    requires Reachable(p)
  {
    match p
    case Here => []
    case InMap(w, n, done, key, inner) => Head(5, w, n) + (EncodeAll(done, false) + (KeyBytes(key) + Before(inner)))
  }

  function KeyBytes(key: Key): Bytes
    requires key.AfterKey? ==> Proper(key.item)
  {
    if key.NoKey? then [] else Encode(key.item)
  }

  /** A string header that puts the end at or beyond 2^63. */
  predicate AnnouncesHuge(b: Bytes) {
    b != [] && (b[0] / 32 == 2 || b[0] / 32 == 3) && ParseLen(b).Ok? && ParseLen(b).used + ParseLen(b).value >= Two63
  }

  ghost predicate HugeAt(b: Bytes, p: Place) {
    Reachable(p) && Before(p) <= b && AnnouncesHuge(b[|Before(p)|..])
  }

  lemma HugePanics(b: Bytes)
    requires |b| < Two63
    ensures b != [] && b[0] / 32 != 5 ==> (ParseValue(b).Panic? <==> AnnouncesHuge(b))
  {
    hide ParseLen, ParseMap;
    if ParseLen(b).Ok? { StringPanicsIff(b, ParseLen(b).used, ParseLen(b).value); }
  }

  lemma Rest3(a: Bytes, c: Bytes, d: Bytes, b: Bytes)
    requires a + (c + d) <= b
    ensures a <= b && c + d <= b[|a|..] && c <= b[|a|..] && d <= b[|a|..][|c|..]
    ensures b[|a + (c + d)|..] == b[|a|..][|c|..][|d|..]
  {
    assert b[..|a|] == a;
    assert b[|a|..][..|c|] == c;
  }

  lemma Leading(key: Bytes, val: Bytes, tail: Bytes, b: Bytes)
    requires key + val + tail <= b
    ensures
      var rest := b[|key| + |val|..];
      b == key + (val + rest) && tail <= rest && b[|key + val + tail|..] == rest[|tail|..]
  {
    assert b[..|key + val|] == key + val;
  }

  /** An entry at the front of the bytes is read. */
  lemma FirstEntryRead(b: Bytes, es: Entries, textKeys: bool)
    requires es.Entry? && ProperAll(es, textKeys) && EncodeAll(es, textKeys) <= b
    ensures
      var rest := b[|Encode(es.key)| + |Encode(es.val)|..];
      && ParseEntry(b, textKeys).Ok? && ParseEntry(b, textKeys).used == |Encode(es.key)| + |Encode(es.val)|
      && EncodeAll(es.tail, textKeys) <= rest && b[|EncodeAll(es, textKeys)|..] == rest[|EncodeAll(es.tail, textKeys)|..]
  {
    hide ParseValue, ParseEntry, Encode, Meaning, Proper;
    var key, val := Encode(es.key), Encode(es.val);
    var rest := b[|key| + |val|..];
    Leading(key, val, EncodeAll(es.tail, textKeys), b);
    ReadsBack(es.key, val + rest);
    ReadsBack(es.val, rest);
    KeyMeans(es.key, textKeys);
    EntryParses(b, key, val, rest, textKeys);
  }

  /** Entries that were read do not change what the rest of the map does. */
  lemma {:induction false} PastEntries(b: Bytes, n: nat, es: Entries, textKeys: bool)
    requires ProperAll(es, textKeys) && Count(es) <= n && EncodeAll(es, textKeys) <= b
    ensures ParsePairs(b, n, textKeys).Panic? <==> ParsePairs(b[|EncodeAll(es, textKeys)|..], n - Count(es), textKeys).Panic?
    decreases es
  {
    hide ParsePairs, ParseEntry, Encode, Proper;
    if es.Nil? {
      assert b[0..] == b;
    } else {
      FirstEntryRead(b, es, textKeys);
      PastEntries(b[ParseEntry(b, textKeys).used..], n - 1, es.tail, textKeys);
      PairsPanicAfter(b, n, textKeys);
    }
  }

  lemma PairsPanicAfter(b: Bytes, n: nat, textKeys: bool)
    requires n > 0 && ParseEntry(b, textKeys).Ok?
    ensures ParsePairs(b, n, textKeys).Panic? <==> ParsePairs(b[ParseEntry(b, textKeys).used..], n - 1, textKeys).Panic?
  {
    hide ParseEntry;
  }

  /** A huge string in a reachable place is reached. */
  lemma {:induction false} ReachedPanics(b: Bytes, p: Place)
    requires HugeAt(b, p) && |b| < Two63
    ensures ParseValue(b).Panic?
    decreases p, 0
  {
    hide ParsePairs, ParseLen, Head, EncodeAll, AnnouncesHuge, ParseEntry, Fits;
    if p.Here? {
      assert b[0..] == b;
      HugeIsString(b);
      HugePanics(b);
    } else {
      var h, body := Head(5, p.w, p.n), EncodeAll(p.done, false);
      var k, q := KeyBytes(p.key), Before(p.inner);
      Rest3(h, body, k + q, b);
      var b1 := b[|h|..];
      var b2 := b1[|body|..];
      assert b == h + b1;
      HeadParses(5, p.w, p.n, b1);
      PastEntries(b1, p.n, p.done, false);
      KeyThenPanic(b2, p.key, p.inner, p.n - Count(p.done), false);
      MapPanics(b, p.n);
    }
  }

  lemma HugeIsString(b: Bytes)
    requires AnnouncesHuge(b)
    ensures b != [] && b[0] / 32 != 5
  {
  }

  lemma MapPanics(b: Bytes, n: nat)
    requires b != [] && b[0] / 32 == 5 && ParseLen(b).Ok? && ParseLen(b).value == n
    ensures ParseValue(b).Panic? <==> ParsePairs(b[ParseLen(b).used..], n, false).Panic?
  {
    hide ParseLen, ParsePairs;
  }

  lemma {:induction false} KeyThenPanic(b: Bytes, key: Key, inner: Place, left: nat, textKeys: bool)
    requires left > 0 && (key.AfterKey? ==> Proper(key.item)) && Reachable(inner) && |b| < Two63
    requires KeyBytes(key) + Before(inner) <= b && AnnouncesHuge(b[|KeyBytes(key) + Before(inner)|..])
    ensures ParsePairs(b, left, textKeys).Panic?
    decreases inner, 1
  {
    hide ParseValue, AnnouncesHuge, Encode, Meaning, Proper;
    var k, q := KeyBytes(key), Before(inner);
    if key.NoKey? {
      assert k + q == q;
      ReachedPanics(b, inner);
    } else {
      var rest := b[|k|..];
      assert b == k + rest && q <= rest && b[|k + q|..] == rest[|q|..];
      ReadsBack(key.item, rest);
      ReachedPanics(rest, inner);
    }
  }

  lemma Shift(b: Bytes, h: Bytes, tail: Bytes)
    requires h <= b && tail <= b[|h|..]
    ensures h + tail <= b && b[|h + tail|..] == b[|h|..][|tail|..]
  {
  }

  /** A decoder that panics does so at a huge string in a reachable place. */
  lemma {:induction false} PanicIsReached(b: Bytes) returns (p: Place)
    requires ParseValue(b).Panic? && |b| < Two63
    ensures HugeAt(b, p)
    decreases |b|, 0
  {
    hide ParsePairs, Head, Fits, EncodeAll, AnnouncesHuge, ParseLen, KeyBytes;
    p := Here;
    assert b[0..] == b;
    HugePanics(b);
    if b[0] / 32 == 5 {
      var w := HeadOf(b);
      var n, hdr := ParseLen(b).value, ParseLen(b).used;
      MapPanics(b, n);
      var done, key, inner := PairsPanicIsReached(b[hdr..], n, false);
      p := InMap(w, n, done, key, inner);
      Shift(b, Head(5, w, n), EncodeAll(done, false) + (KeyBytes(key) + Before(inner)));
    }
  }

  lemma {:induction false} PairsPanicIsReached(b: Bytes, n: nat, textKeys: bool) returns (done: Entries, key: Key, inner: Place)
    requires ParsePairs(b, n, textKeys).Panic? && |b| < Two63
    ensures Count(done) < n && ProperAll(done, textKeys) && (key.AfterKey? ==> Proper(key.item)) && Reachable(inner)
    ensures var before := EncodeAll(done, textKeys) + (KeyBytes(key) + Before(inner));
      before <= b && AnnouncesHuge(b[|before|..])
    decreases |b|, 1, n
  {
    hide ParseValue, Encode, Meaning, Proper, AnnouncesHuge, Before;
    done, key := Nil, NoKey;
    if ParseValue(b).Panic? {
      inner := PanicIsReached(b);
      assert [] + ([] + Before(inner)) == Before(inner);
    } else {
      var item := ItemRead(b);
      var kn := ParseValue(b).used;
      var b1 := b[kn..];
      assert b == Encode(item) + b1;
      if ParseValue(b1).Panic? {
        key := AfterKey(item);
        inner := PanicIsReached(b1);
        InFront(Encode(item), Before(inner), b1);
        assert [] + (Encode(item) + Before(inner)) == Encode(item) + Before(inner);
      } else {
        var val := ItemRead(b1);
        var b2 := b1[ParseValue(b1).used..];
        assert b1 == Encode(val) + b2;
        SliceTwice(b, kn, ParseValue(b1).used);
        KeyMeans(item, textKeys);
        done, key, inner := PairsPanicIsReached(b2, n - 1, textKeys);
        Prepended(item, val, done, KeyBytes(key) + Before(inner), b, b2, textKeys);
        done := Entry(item, val, done);
      }
    }
  }

  lemma SliceTwice(b: Bytes, i: nat, j: nat)
    requires i + j <= |b|
    ensures b[i..][j..] == b[i + j..]
  {
  }

  /** More bytes in front of a prefix. */
  lemma InFront(x: Bytes, tail: Bytes, b: Bytes)
    requires tail <= b
    ensures x + tail <= x + b && (x + b)[|x + tail|..] == b[|tail|..]
  {
  }

  lemma Prepended(item: Item, val: Item, done: Entries, q: Bytes, b: Bytes, b2: Bytes, textKeys: bool)
    requires Proper(item) && Proper(val) && KeyItem(item, textKeys) && ProperAll(done, textKeys)
    requires b == Encode(item) + (Encode(val) + b2) && EncodeAll(done, textKeys) + q <= b2
    ensures var before := EncodeAll(Entry(item, val, done), textKeys) + q;
      before <= b && b[|before|..] == b2[|EncodeAll(done, textKeys) + q|..]
  {
    hide Encode, Proper;
    var x, y, z := Encode(item), Encode(val), EncodeAll(done, textKeys);
    InFront(x + y, z + q, b2);
    Grouped(x, y, z, q, b2);
  }

  lemma Grouped(x: Bytes, y: Bytes, z: Bytes, q: Bytes, b: Bytes)
    ensures x + y + z + q == (x + y) + (z + q) && x + (y + b) == (x + y) + b
  {
  }

  /** Decoding panics exactly when a string whose end is at 2^63 or beyond stands where the decoder gets to: behind
      complete entries and keys of the maps it is in. */
  lemma DecoderPanicsIff(b: Bytes)
    requires |b| < Two63
    ensures ParseValue(b).Panic? <==> exists p :: HugeAt(b, p)
  {
    hide ParseValue, HugeAt;
    if ParseValue(b).Panic? { var p := PanicIsReached(b); }
    if p :| HugeAt(b, p) { ReachedPanics(b, p); }
  }

  /** The same for the attestation object, whose own keys are text. */
  ghost predicate HugeInObject(b: Bytes, done: Entries, key: Key, inner: Place) {
    && ParseHead(b).Ok? && Count(done) < ParseHead(b).value
    && ProperAll(done, true) && (key.AfterKey? ==> Proper(key.item)) && Reachable(inner)
    && var before := EncodeAll(done, true) + (KeyBytes(key) + Before(inner));
       var body := b[ParseHead(b).used..];
       before <= body && AnnouncesHuge(body[|before|..])
  }

  lemma AttestationPanicsIff(b: Bytes)
    requires |b| < Two63
    ensures ParseAttestation(b).Panic? <==> exists done, key, inner :: HugeInObject(b, done, key, inner)
  {
    hide ParseHead, ParsePairs, EncodeAll, KeyBytes, Before, AnnouncesHuge, Reachable, ProperAll;
    if ParseAttestation(b).Panic? {
      var head := ParseHead(b);
      var done, key, inner := PairsPanicIsReached(b[head.used..], head.value, true);
      assert HugeInObject(b, done, key, inner);
    }
    if done, key, inner :| HugeInObject(b, done, key, inner) {
      var body, before := b[ParseHead(b).used..], EncodeAll(done, true);
      var rest := KeyBytes(key) + Before(inner);
      Tail(body, before, rest);
      PastEntries(body, ParseHead(b).value, done, true);
      KeyThenPanic(body[|before|..], key, inner, ParseHead(b).value - Count(done), true);
    }
  }

  lemma Tail(b: Bytes, h: Bytes, tail: Bytes)
    requires h + tail <= b
    ensures h <= b && tail <= b[|h|..] && b[|h + tail|..] == b[|h|..][|tail|..]
  {
    assert b[..|h|] == h;
  }

  /** Nine bytes are enough: a byte string of announced length 2^64 - 1. */
  lemma NineBytesPanic()
    ensures ParseValue([0x5B, 255, 255, 255, 255, 255, 255, 255, 255]).Panic?
  {
    var b: Bytes := [0x5B, 255, 255, 255, 255, 255, 255, 255, 255];
    AllOnes(b[1..9], 8);
    assert 0x5B % 32 == 27 && 0x5B / 32 == 2;
    assert Pow256(8) == Two64 by { PowersOf256(); }
    assert ParseLen(b) == Ok(Two64 - 1, 9);
    HugePanics(b);
  }

  lemma {:induction false} AllOnes(s: Bytes, k: nat)
    requires |s| == k && forall i | 0 <= i < k :: s[i] == 255
    ensures FromBE(s) == Pow256(k) - 1
  {
    if k > 0 { AllOnes(s[..k - 1], k - 1); }
  }

  lemma PowersOf256()
    ensures Pow256(8) == Two64
  {
    assert Pow256(1) == 0x100 && Pow256(2) == 0x1_0000 && Pow256(3) == 0x100_0000 && Pow256(4) == 0x1_0000_0000;
    assert Pow256(5) == 0x100_0000_0000 && Pow256(6) == 0x1_0000_0000_0000 && Pow256(7) == 0x100_0000_0000_0000;
  }
}

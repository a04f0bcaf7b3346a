/** The decoder for the part of CBOR that security keys use (section 3 of RFC 8949): integers, strings and
    maps of definite length. */
module Cbor {
  type Byte = b: int | 0 <= b < 256
  type Bytes = seq<Byte>

  // ---- Big-endian numbers ----

  function Pow256(k: nat): (p: nat)
    ensures p > 0
  {
    if k == 0 then 1 else 256 * Pow256(k - 1)
  }

  function FromBE(s: Bytes): (n: nat)
    ensures n < Pow256(|s|)
  {
    if s == [] then 0 else 256 * FromBE(s[..|s| - 1]) + s[|s| - 1]
  }

  function ToBE(n: nat, k: nat): (s: Bytes)
    ensures |s| == k
  {
    if k == 0 then [] else ToBE(n / 256, k - 1) + [n % 256]
  }

  lemma {:induction false} ToFromBE(n: nat, k: nat)
    requires n < Pow256(k)
    ensures FromBE(ToBE(n, k)) == n
    decreases k
  {
    if k > 0 {
      ToFromBE(n / 256, k - 1);
      assert ToBE(n, k)[..k - 1] == ToBE(n / 256, k - 1);
    }
  }

  lemma {:induction false} FromToBE(s: Bytes)
    ensures ToBE(FromBE(s), |s|) == s
  {
    if s != [] { FromToBE(s[..|s| - 1]); }
  }

  // ---- Go's 64-bit integers ----

  const Two63: int := 0x8000_0000_0000_0000
  const Two64: int := 0x1_0000_0000_0000_0000

  /** `int64(n)` for an unsigned 64-bit `n`. */
  function Signed(n: nat): int { if n < Two63 then n else n - Two64 }

  /** The 64-bit sum. */
  function Wrap(n: int): int { if n >= Two63 then n - Two64 else if n < -Two63 then n + Two64 else n }

  // ---- The decoder ----

  datatype Value = Int(i: int) | Blob(bytes: Bytes) | Text(text: Bytes) | Map(entries: map<int, Value>)

  type Pairs = seq<(Value, Value)>

  /** `Panic` is a slice expression out of range. */
  datatype Outcome<T> = Ok(value: T, used: nat) | Err | Panic

  datatype Width = Direct | One | Two | Four | Eight

  function Extra(w: Width): nat {
    match w case Direct => 0 case One => 1 case Two => 2 case Four => 4 case Eight => 8
  }

  function Code(w: Width): nat {
    match w case Direct => 0 case One => 24 case Two => 25 case Four => 26 case Eight => 27
  }

  function WidthOf(low: nat): (w: Width)
    requires low < 28
  {
    if low < 24 then Direct else if low == 24 then One else if low == 25 then Two else if low == 26 then Four else Eight
  }

  function ParseLen(b: Bytes): (r: Outcome<nat>)
    ensures r.Ok? ==> 1 <= r.used <= |b| && r.used <= 9 && r.value < Two64
    ensures !r.Panic?
  {
    if b == [] || b[0] % 32 >= 28 then Err
    else
      var low := b[0] % 32;
      var k := Extra(WidthOf(low));
      if |b| < 1 + k then Err
      else if k == 0 then Ok(low, 1)
      else LimitOf(k); Ok(FromBE(b[1..1 + k]), 1 + k)
  }

  lemma LimitOf(k: nat)
    requires k <= 8
    ensures Pow256(k) <= Two64
  {
    assert Pow256(1) == 0x100 && Pow256(2) == 0x1_0000 && Pow256(3) == 0x100_0000 && Pow256(4) == 0x1_0000_0000;
    assert Pow256(5) == 0x100_0000_0000 && Pow256(6) == 0x1_0000_0000_0000 && Pow256(7) == 0x100_0000_0000_0000;
  }

  /** The slice `b[hdr : hdr+int(n)]` behind the length check, with the sums in 64 bits. */
  function ParseString(b: Bytes, hdr: nat, n: nat): (r: Outcome<Bytes>)
    requires 1 <= hdr <= |b| && hdr <= 9 && n < Two64
    ensures r.Ok? ==> r.used == hdr + n <= |b| && r.value == b[hdr..r.used]
  {
    var end := Wrap(hdr + Signed(n));
    if end > |b| then Err
    else if end < hdr then Panic
    else Ok(b[hdr..end], end)
  }

  function ParseValue(b: Bytes): (r: Outcome<Value>)
    ensures r.Ok? ==> 1 <= r.used <= |b|
    decreases |b|, 1
  {
    if b == [] then Err
    else
      var major := b[0] / 32;
      if major == 5 then
        (match ParseMap(b)
         case Ok(m, used) => Ok(Map(m), used)
         case Err => Err
         case Panic => Panic)
      else if major > 3 then Err
      else
        match ParseLen(b)
        case Err => Err
        case Panic => Panic
        case Ok(n, hdr) =>
          if major == 0 then Ok(Int(Signed(n)), hdr)
          else if major == 1 then Ok(Int(-1 - Signed(n)), hdr)
          else
            match ParseString(b, hdr, n)
            case Ok(s, used) => Ok(if major == 2 then Blob(s) else Text(s), used)
            case Err => Err
            case Panic => Panic
  }

  function ParseMap(b: Bytes): (r: Outcome<map<int, Value>>)
    ensures r.Ok? ==> 1 <= r.used <= |b|
    decreases |b|, 0
  {
    match ParseHead(b)
    case Err => Err
    case Panic => Panic
    case Ok(n, hdr) =>
      match ParsePairs(b[hdr..], n, false)
      case Ok(ps, used) => Ok(IntMap(ps), hdr + used)
      case Err => Err
      case Panic => Panic
  }

  function ParseHead(b: Bytes): (r: Outcome<nat>)
    ensures r.Ok? ==> 1 <= r.used <= |b|
    ensures !r.Panic?
  {
    if b == [] || b[0] / 32 != 5 then Err else ParseLen(b)
  }

  predicate KeyFits(k: Value, textKeys: bool) { if textKeys then k.Text? else k.Int? }

  /** One key and its value; the kind of the key is looked at once the value is read. */
  function ParseEntry(b: Bytes, textKeys: bool): (r: Outcome<(Value, Value)>)
    ensures r.Ok? ==> 1 <= r.used <= |b| && KeyFits(r.value.0, textKeys)
    decreases |b|, 2
  {
    match ParseValue(b)
    case Err => Err
    case Panic => Panic
    case Ok(key, kn) =>
      match ParseValue(b[kn..])
      case Err => Err
      case Panic => Panic
      case Ok(val, vn) => if KeyFits(key, textKeys) then Ok((key, val), kn + vn) else Err
  }

  function ParsePairs(b: Bytes, n: nat, textKeys: bool): (r: Outcome<Pairs>)
    ensures r.Ok? ==> r.used <= |b| && |r.value| == n && forall p | p in r.value :: KeyFits(p.0, textKeys)
    decreases |b|, 3
  {
    if n == 0 then Ok([], 0)
    else
      match ParseEntry(b, textKeys)
      case Err => Err
      case Panic => Panic
      case Ok(p, end) => After([p], end, ParsePairs(b[end..], n - 1, textKeys))
  }

  /** What was read so far, ending at `pos`, and what is read from there. */
  function After(done: Pairs, pos: nat, rest: Outcome<Pairs>): Outcome<Pairs> {
    match rest
    case Ok(ps, used) => Ok(done + ps, pos + used)
    case Err => Err
    case Panic => Panic
  }

  /** Later entries overwrite earlier ones. */
  function IntMap(ps: Pairs): map<int, Value>
    requires forall p | p in ps :: p.0.Int?
  {
    if ps == [] then map[]
    else var last := ps[|ps| - 1]; assert last in ps; IntMap(ps[..|ps| - 1])[last.0.i := last.1]
  }

  function TextMap(ps: Pairs): map<Bytes, Value>
    requires forall p | p in ps :: p.0.Text?
  {
    if ps == [] then map[]
    else var last := ps[|ps| - 1]; assert last in ps; TextMap(ps[..|ps| - 1])[last.0.text := last.1]
  }

  function ParseAttestation(b: Bytes): (r: Outcome<map<Bytes, Value>>)
  {
    match ParseHead(b)
    case Err => Err
    case Panic => Panic
    case Ok(n, hdr) =>
      match ParsePairs(b[hdr..], n, true)
      case Ok(ps, used) => Ok(TextMap(ps), hdr + used)
      case Err => Err
      case Panic => Panic
  }

  // ---- The loops ----

  method ReadCborValue(b: Bytes) returns (r: Outcome<Value>)
    ensures r == ParseValue(b)
    decreases |b|, 1
  {
    if b == [] { return Err; }
    var major := b[0] / 32;
    if major == 5 {
      var m := ReadCborMap(b);
      match m {
        case Ok(entries, used) => return Ok(Map(entries), used);
        case Err => return Err;
        case Panic => return Panic;
      }
    }
    if major > 3 { return Err; }
    var len := ParseLen(b);
    if len.Err? { return Err; }
    if major == 0 { return Ok(Int(Signed(len.value)), len.used); }
    if major == 1 { return Ok(Int(-1 - Signed(len.value)), len.used); }
    var s := ParseString(b, len.used, len.value);
    match s {
      case Ok(buf, used) => return Ok(if major == 2 then Blob(buf) else Text(buf), used);
      case Err => return Err;
      case Panic => return Panic;
    }
  }

  /** One turn of the loop. */
  method ReadEntry(b: Bytes, textKeys: bool) returns (r: Outcome<(Value, Value)>)
    ensures r == ParseEntry(b, textKeys)
    decreases |b|, 2
  {
    var key := ReadCborValue(b);
    if key.Err? { return Err; }
    if key.Panic? { return Panic; }
    var val := ReadCborValue(b[key.used..]);
    if val.Err? { return Err; }
    if val.Panic? { return Panic; }
    if !KeyFits(key.value, textKeys) { return Err; }
    return Ok((key.value, val.value), key.used + val.used);
  }

  /** The loop invariant: what the whole loop gives is what is done and what the rest gives. */
  ghost predicate Standing(whole: Outcome<Pairs>, b: Bytes, start: nat, pos: nat, left: nat, textKeys: bool, done: Pairs) {
    && start <= pos <= |b|
    && (forall p | p in done :: KeyFits(p.0, textKeys))
    && whole == After(done, pos - start, ParsePairs(b[pos..], left, textKeys))
  }

  lemma LoopStep(whole: Outcome<Pairs>, b: Bytes, start: nat, pos: nat, left: nat, textKeys: bool, done: Pairs)
    requires Standing(whole, b, start, pos, left, textKeys, done) && left > 0
    ensures match ParseEntry(b[pos..], textKeys)
      case Ok(p, used) => Standing(whole, b, start, pos + used, left - 1, textKeys, done + [p])
      case Err => whole == Err
      case Panic => whole == Panic
  {
    hide ParseEntry;
    match ParseEntry(b[pos..], textKeys)
    case Err =>
    case Panic =>
    case Ok(p, used) =>
      assert b[pos..][used..] == b[pos + used..];
      var rest := ParsePairs(b[pos + used..], left - 1, textKeys);
      if rest.Ok? { assert done + ([p] + rest.value) == done + [p] + rest.value; }
  }

  lemma LoopBegins(b: Bytes, start: nat, n: nat, textKeys: bool)
    requires start <= |b|
    ensures Standing(ParsePairs(b[start..], n, textKeys), b, start, start, n, textKeys, [])
  {
    hide ParsePairs;
    var whole := ParsePairs(b[start..], n, textKeys);
    if whole.Ok? { assert [] + whole.value == whole.value; }
  }

  lemma LoopEnds(whole: Outcome<Pairs>, b: Bytes, start: nat, pos: nat, textKeys: bool, done: Pairs)
    requires Standing(whole, b, start, pos, 0, textKeys, done)
    ensures whole == Ok(done, pos - start)
  {
    assert done + [] == done;
  }

  lemma MapGrows(done: Pairs, p: (Value, Value))
    ensures (forall q | q in done + [p] :: q.0.Int?) ==> IntMap(done + [p]) == IntMap(done)[p.0.i := p.1]
    ensures (forall q | q in done + [p] :: q.0.Text?) ==> TextMap(done + [p]) == TextMap(done)[p.0.text := p.1]
  {
    assert (done + [p])[..|done|] == done;
  }

  method ReadCborMap(b: Bytes) returns (r: Outcome<map<int, Value>>)
    ensures r == ParseMap(b)
    decreases |b|, 0
  {
    hide ParsePairs, ParseEntry, After, IntMap, ParseHead, Standing;
    var head := ParseHead(b);
    if head.Err? { return Err; }
    var n, pos, out, i := head.value, head.used, map[], 0;
    ghost var whole, done: Pairs := ParsePairs(b[pos..], n, false), [];
    LoopBegins(b, pos, n, false);
    NoEntries();
    while i < n
      invariant 0 <= i <= n && head.used <= pos <= |b|
      invariant (forall p | p in done :: p.0.Int?) && out == IntMap(done)
      invariant Standing(whole, b, head.used, pos, n - i, false, done)
    {
      LoopStep(whole, b, head.used, pos, n - i, false, done);
      var entry := ReadEntry(b[pos..], false);
      if entry.Err? { return Err; }
      if entry.Panic? { return Panic; }
      MapGrows(done, entry.value);
      out := out[entry.value.0.i := entry.value.1];
      done, pos, i := done + [entry.value], pos + entry.used, i + 1;
    }
    LoopEnds(whole, b, head.used, pos, false, done);
    return Ok(out, pos);
  }

  method ReadAttestationMap(b: Bytes) returns (r: Outcome<map<Bytes, Value>>)
    ensures r == ParseAttestation(b)
  {
    hide ParsePairs, ParseEntry, After, TextMap, ParseHead, Standing;
    var head := ParseHead(b);
    if head.Err? { return Err; }
    var n, pos, out, i := head.value, head.used, map[], 0;
    ghost var whole, done: Pairs := ParsePairs(b[pos..], n, true), [];
    LoopBegins(b, pos, n, true);
    NoEntries();
    while i < n
      invariant 0 <= i <= n && head.used <= pos <= |b|
      invariant (forall p | p in done :: p.0.Text?) && out == TextMap(done)
      invariant Standing(whole, b, head.used, pos, n - i, true, done)
    {
      LoopStep(whole, b, head.used, pos, n - i, true, done);
      var entry := ReadEntry(b[pos..], true);
      if entry.Err? { return Err; }
      if entry.Panic? { return Panic; }
      MapGrows(done, entry.value);
      out := out[entry.value.0.text := entry.value.1];
      done, pos, i := done + [entry.value], pos + entry.used, i + 1;
    }
    LoopEnds(whole, b, head.used, pos, true, done);
    return Ok(out, pos);
  }

  lemma NoEntries()
    ensures IntMap([]) == map[] && TextMap([]) == map[]
  {
  }
}

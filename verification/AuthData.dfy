/** Authenticator data (section 6.1 of Web Authentication) and the attestation object that carries it. */
module AuthData {
  import opened Wrappers
  import opened Cbor
  import opened CborLaws

  datatype Attested = Attested(aaguid: Bytes, credentialId: Bytes, coseKey: Bytes)
  datatype AuthData = AuthData(rpIdHash: Bytes, flags: Byte, signCount: nat, attested: Option<Attested>)

  predicate AttestedFlag(flags: Byte) { flags / 64 % 2 == 1 }

  /** `None` is an error. */
  function ParseAuthData(b: Bytes): (r: Option<AuthData>) {
    if |b| < 37 then None
    else
      var hash, flags, count := b[..32], b[32], FromBE(b[33..37]);
      if !AttestedFlag(flags) then Some(AuthData(hash, flags, count, None))
      else if |b| < 55 then None
      else
        var credLen := FromBE(b[53..55]);
        if 55 + credLen > |b| then None
        else Some(AuthData(hash, flags, count, Some(Attested(b[37..53], b[55..55 + credLen], b[55 + credLen..]))))
  }

  // ---- The layout ----

  predicate Laid(ad: AuthData) {
    && |ad.rpIdHash| == 32 && ad.signCount < Pow256(4) && (ad.attested.Some? <==> AttestedFlag(ad.flags))
    && (ad.attested.Some? ==> |ad.attested.value.aaguid| == 16 && |ad.attested.value.credentialId| < Pow256(2))
  }

  function Layout(ad: AuthData): (b: Bytes)
    requires Laid(ad)
    ensures |b| >= 37
  {
    ad.rpIdHash + [ad.flags] + ToBE(ad.signCount, 4) +
    (match ad.attested
     case None => []
     case Some(a) => a.aaguid + ToBE(|a.credentialId|, 2) + a.credentialId + a.coseKey)
  }

  lemma LayoutParses(ad: AuthData, rest: Bytes)
    requires Laid(ad) && (ad.attested.Some? ==> rest == [])
    ensures ParseAuthData(Layout(ad) + rest) == Some(ad)
  {
    var b := Layout(ad) + rest;
    assert b[..32] == ad.rpIdHash && b[32] == ad.flags && b[33..37] == ToBE(ad.signCount, 4);
    ToFromBE(ad.signCount, 4);
    if ad.attested.Some? {
      var a := ad.attested.value;
      var n := |a.credentialId|;
      assert b[37..53] == a.aaguid;
      assert b[53..55] == ToBE(n, 2);
      ToFromBE(n, 2);
      assert b[55..55 + n] == a.credentialId;
      assert b[55 + n..] == a.coseKey;
    }
  }

  lemma ParsedIsLaid(b: Bytes) returns (rest: Bytes)
    requires ParseAuthData(b).Some?
    ensures var ad := ParseAuthData(b).value;
      Laid(ad) && b == Layout(ad) + rest && (ad.attested.Some? ==> rest == [])
  {
    hide ToBE, FromBE;
    var ad := ParseAuthData(b).value;
    FromToBE(b[33..37]);
    assert b[..37] == ad.rpIdHash + [ad.flags] + ToBE(ad.signCount, 4);
    assert b == b[..37] + b[37..];
    rest := if ad.attested.None? then b[37..] else [];
    if ad.attested.Some? {
      var a := ad.attested.value;
      FromToBE(b[53..55]);
      assert b[37..] == a.aaguid + ToBE(|a.credentialId|, 2) + a.credentialId + a.coseKey;
    }
  }

  /** Parsing succeeds exactly on the layout of the fields it returns; bytes may follow only when there is no
      attested credential. */
  lemma ParsesIff(b: Bytes, ad: AuthData)
    ensures ParseAuthData(b) == Some(ad)
      <==> (Laid(ad) && exists rest: Bytes :: b == Layout(ad) + rest && (ad.attested.Some? ==> rest == []))
  {
    hide ParseAuthData, Layout, Laid;
    if ParseAuthData(b) == Some(ad) {
      var rest := ParsedIsLaid(b);
    }
    if Laid(ad) {
      if rest: Bytes :| b == Layout(ad) + rest && (ad.attested.Some? ==> rest == []) {
        LayoutParses(ad, rest);
      }
    }
  }

  // ---- The attestation object ----

  function EncodeAttestation(w: Width, es: Entries): Bytes
    requires Fits(w, Count(es)) && ProperAll(es, true)
  {
    Head(5, w, Count(es)) + EncodeAll(es, true)
  }

  ghost predicate IsAttestation(b: Bytes, m: map<Bytes, Value>) {
    exists w: Width, es: Entries :: Fits(w, Count(es)) && ProperAll(es, true) && EncodeAttestation(w, es) == b && TextMap(MeaningAll(es, true)) == m
  }

  lemma AttestationReadsBack(w: Width, es: Entries, rest: Bytes)
    requires Fits(w, Count(es)) && ProperAll(es, true)
    ensures ParseAttestation(EncodeAttestation(w, es) + rest) == Ok(TextMap(MeaningAll(es, true)), |EncodeAttestation(w, es)|)
  {
    hide ParsePairs, ParseLen, Head, ToBE, TextMap, Fits, EncodeAll, MeaningAll;
    var h, body := Head(5, w, Count(es)), EncodeAll(es, true);
    assert h + body + rest == h + (body + rest);
    HeadParses(5, w, Count(es), body + rest);
    assert (h + (body + rest))[|h|..] == body + rest;
    ReadsBackAll(es, true, rest);
  }

  /** The attestation object is accepted exactly when it begins with a map of text keys whose values the
      decoder knows. */
  lemma AttestationDecodesIff(b: Bytes, m: map<Bytes, Value>, k: nat)
    requires k <= |b|
    ensures ParseAttestation(b) == Ok(m, k) <==> IsAttestation(b[..k], m)
  {
    hide ParsePairs, ParseLen, Head, TextMap, Fits, EncodeAll, MeaningAll, ProperAll;
    if ParseAttestation(b) == Ok(m, k) {
      var w := HeadOf(b);
      var n, hdr := ParseLen(b).value, ParseLen(b).used;
      var es := ItemsRead(b[hdr..], n, true);
      assert b[..hdr] + b[hdr..][..k - hdr] == b[..k];
      assert EncodeAttestation(w, es) == b[..k];
    }
    if IsAttestation(b[..k], m) {
      var w: Width, es: Entries :| Fits(w, Count(es)) && ProperAll(es, true) && EncodeAttestation(w, es) == b[..k] && TextMap(MeaningAll(es, true)) == m;
      assert b == b[..k] + b[k..];
      AttestationReadsBack(w, es, b[k..]);
    }
  }

  /** A nested map keyed by text, as the statement of a packed attestation is, is refused. */
  lemma NestedTextKeyIsRefused(w: Width, n: nat, key: Item, val: Item, rest: Bytes)
    requires Fits(w, n) && n > 0 && Proper(key) && key.Str? && key.text && Proper(val)
    ensures ParseValue(Head(5, w, n) + (Encode(key) + (Encode(val) + rest))) == Err
  {
    hide ParseLen, Head, Fits, Encode, Proper, Meaning;
    var h, body := Head(5, w, n), Encode(key) + (Encode(val) + rest);
    HeadParses(5, w, n, body);
    assert (h + body)[|h|..] == body;
    ReadsBack(key, Encode(val) + rest);
    KeyMeans(key, false);
    assert body[|Encode(key)|..] == Encode(val) + rest;
    ReadsBack(val, rest);
    assert ParseEntry(body, false) == Err;
    assert ParsePairs(body, n, false) == Err;
    assert ParseMap(h + body) == Err;
  }

  // ---- The key ----

  datatype PublicKey = EllipticCurve(x: nat, y: nat) | Rsa(n: nat, e: int)

  /** A missing entry, or one of another kind, reads as zero or as no bytes. */
  function IntAt(m: map<int, Value>, k: int): int { if k in m && m[k].Int? then m[k].i else 0 }

  function BytesAt(m: map<int, Value>, k: int): Bytes { if k in m && m[k].Blob? then m[k].bytes else [] }

  /** The exponent as Go accumulates it, in 64 bits. */
  function Exponent(b: Bytes): int { Signed(FromBE(b) % Two64) }

  method ReadExponent(b: Bytes) returns (e: int)
    ensures e == Exponent(b)
  {
    var u := 0;
    for i := 0 to |b|
      invariant 0 <= u < Two64 && u == FromBE(b[..i]) % Two64
    {
      assert b[..i + 1][..i] == b[..i];
      ShiftIn(FromBE(b[..i]), b[i]);
      u := (u * 256 + b[i]) % Two64;
    }
    assert b[..|b|] == b;
    e := Signed(u);
  }

  lemma ShiftIn(n: nat, b: Byte)
    ensures ((n % Two64) * 256 + b) % Two64 == (256 * n + b) % Two64
  {
    var q, r := n / Two64, n % Two64;
    assert 256 * n + b == (r * 256 + b) + Two64 * (256 * q);
    Multiples(r * 256 + b, 256 * q);
  }

  lemma Multiples(x: int, q: int)
    ensures (x + Two64 * q) % Two64 == x % Two64
  {
  }

  /** ES256 and RS256 keys; `None` is an error. */
  function KeyOf(m: map<int, Value>): Option<PublicKey> {
    var kty, alg := IntAt(m, 1), IntAt(m, 3);
    if alg == -7 then
      if kty != 2 || BytesAt(m, -2) == [] || BytesAt(m, -3) == [] then None
      else Some(EllipticCurve(FromBE(BytesAt(m, -2)), FromBE(BytesAt(m, -3))))
    else if alg == -257 then
      if kty != 3 || BytesAt(m, -1) == [] || BytesAt(m, -2) == [] then None
      else Some(Rsa(FromBE(BytesAt(m, -1)), Exponent(BytesAt(m, -2))))
    else None
  }

  // ---- What registration stores ----

  const AuthDataKey: Bytes := [97, 117, 116, 104, 68, 97, 116, 97]

  datatype Credential = Credential(id: Bytes, coseKey: Bytes, signCount: nat)

  /** `None` is an error answer. */
  function Registered(b: Bytes): (r: Option<Credential>) {
    match ParseAttestation(b)
    case Err => None
    case Panic => None
    case Ok(m, _) =>
      if AuthDataKey !in m || !m[AuthDataKey].Blob? || m[AuthDataKey].bytes == [] then None
      else FromAuthData(ParseAuthData(m[AuthDataKey].bytes))
  }

  function FromAuthData(ad: Option<AuthData>): Option<Credential> {
    if ad.None? || ad.value.attested.None? then None
    else
      var a := ad.value.attested.value;
      if a.credentialId == [] || a.coseKey == [] then None
      else
        match ParseMap(a.coseKey)
        case Ok(m, _) => if KeyOf(m).Some? then Some(Credential(a.credentialId, a.coseKey, ad.value.signCount)) else None
        case _ => None
  }

  lemma {:induction false} TextMapAt(ps: Pairs, i: nat)
    requires (forall p | p in ps :: p.0.Text?) && i < |ps|
    requires forall j | i < j < |ps| :: ps[j].0 != ps[i].0
    ensures ps[i].0.text in TextMap(ps) && TextMap(ps)[ps[i].0.text] == ps[i].1
    decreases |ps|
  {
    assert ps[i] in ps && ps[|ps| - 1] in ps;
    if i < |ps| - 1 { TextMapAt(ps[..|ps| - 1], i); }
  }

  /** A map of the grammar whose meaning is a key of a supported algorithm. */
  ghost predicate EncodesKey(b: Bytes) {
    exists item: Item, more: Bytes :: Proper(item) && item.Dict? && b == Encode(item) + more && KeyOf(Meaning(item).entries).Some?
  }

  lemma KeyParsesIff(b: Bytes)
    ensures (ParseMap(b).Ok? && KeyOf(ParseMap(b).value).Some?) <==> EncodesKey(b)
  {
    hide KeyOf, Encode, Proper, ParsePairs, ParseLen;
    if ParseMap(b).Ok? {
      var item := ItemRead(b);
      assert b == Encode(item) + b[ParseMap(b).used..];
      MapItem(item);
    }
    if item: Item, more: Bytes :| Proper(item) && item.Dict? && b == Encode(item) + more && KeyOf(Meaning(item).entries).Some? {
      ReadsBack(item, more);
      MapItem(item);
      DictIsMap(b);
    }
  }

  lemma MapItem(item: Item)
    requires Proper(item)
    ensures Meaning(item).Map? <==> item.Dict?
  {
  }

  lemma DictIsMap(b: Bytes)
    requires ParseValue(b).Ok? && ParseValue(b).value.Map?
    ensures ParseMap(b) == Ok(ParseValue(b).value.entries, ParseValue(b).used)
  {
  }

  /** What the authenticator data must be for the credential to be stored. */
  ghost predicate Stores(d: Bytes, ad: AuthData, c: Credential) {
    && Laid(ad) && ad.attested.Some? && d == Layout(ad)
    && c == Credential(ad.attested.value.credentialId, ad.attested.value.coseKey, ad.signCount)
    && c.id != [] && EncodesKey(c.coseKey)
  }

  lemma StoresIff(d: Bytes, c: Credential)
    ensures FromAuthData(ParseAuthData(d)) == Some(c) <==> exists ad :: Stores(d, ad, c)
  {
    hide ParseAuthData, Layout, Laid, ParseMap, KeyOf, EncodesKey;
    if FromAuthData(ParseAuthData(d)) == Some(c) {
      var ad := ParseAuthData(d).value;
      var rest := ParsedIsLaid(d);
      assert Layout(ad) + [] == Layout(ad);
      KeyParsesIff(c.coseKey);
      assert Stores(d, ad, c);
    }
    if ad :| Stores(d, ad, c) {
      assert Layout(ad) + [] == Layout(ad);
      LayoutParses(ad, []);
      KeyParsesIff(c.coseKey);
      EmptyIsNoKey();
    }
  }

  lemma EmptyIsNoKey()
    ensures !EncodesKey([])
  {
    KeyParsesIff([]);
  }

  ghost predicate Carries(b: Bytes, k: nat, m: map<Bytes, Value>, d: Bytes) {
    k <= |b| && IsAttestation(b[..k], m) && AuthDataKey in m && m[AuthDataKey] == Blob(d)
  }

  /** Registration stores a credential exactly when the object begins with an attestation map whose last authenticator
      data is the layout of that credential, with an id and a key of a supported algorithm. */
  lemma RegistersIff(b: Bytes, c: Credential)
    ensures Registered(b) == Some(c) <==> exists k, m, d, ad :: Carries(b, k, m, d) && Stores(d, ad, c)
  {
    hide ParseAttestation, ParseAuthData, FromAuthData, IsAttestation, Stores;
    if Registered(b) == Some(c) {
      var m, k := ParseAttestation(b).value, ParseAttestation(b).used;
      var d := m[AuthDataKey].bytes;
      StoresIff(d, c);
      var ad :| Stores(d, ad, c);
      AttestationUses(b);
      AttestationDecodesIff(b, m, k);
      assert Carries(b, k, m, d) && Stores(d, ad, c);
    }
    if k, m, d, ad :| Carries(b, k, m, d) && Stores(d, ad, c) {
      AttestationDecodesIff(b, m, k);
      StoresIff(d, c);
      LaidIsLong(d, ad, c);
    }
  }

  lemma LaidIsLong(d: Bytes, ad: AuthData, c: Credential)
    requires Stores(d, ad, c)
    ensures d != []
  {
  }

  lemma AttestationUses(b: Bytes)
    requires ParseAttestation(b).Ok?
    ensures ParseAttestation(b).used <= |b|
  {
  }

  /** Whatever an authenticator puts in its attestation object beside the authenticator data, and however it
      encodes it, registration stores the credential id and the key it was given. */
  lemma RegistrationKeepsCredential(w: Width, es: Entries, i: nat, ad: AuthData, c: Credential, rest: Bytes)
    requires Fits(w, Count(es)) && ProperAll(es, true) && i < |MeaningAll(es, true)|
    requires Laid(ad) && Stores(Layout(ad), ad, c)
    requires MeaningAll(es, true)[i] == (Text(AuthDataKey), Blob(Layout(ad)))
    requires forall j | i < j < |MeaningAll(es, true)| :: MeaningAll(es, true)[j].0 != Text(AuthDataKey)
    ensures Registered(EncodeAttestation(w, es) + rest) == Some(c)
  {
    hide ParsePairs, ParseLen, Head, TextMap, Fits, EncodeAll, MeaningAll, ProperAll, Layout, EncodeAttestation, ParseAttestation, ParseAuthData, FromAuthData, Stores;
    AttestationReadsBack(w, es, rest);
    TextMapAt(MeaningAll(es, true), i);
    StoresIff(Layout(ad), c);
  }

  // ---- The table of credentials ----

  type Credentials = map<Bytes, Credential>

  /** The insert: a credential id that is there already keeps its row but for the nickname. */
  function Register(stored: Credentials, b: Bytes): Credentials {
    match Registered(b)
    case None => stored
    case Some(c) => if c.id in stored then stored else stored[c.id := c]
  }

  function RegisterAll(stored: Credentials, bs: seq<Bytes>): Credentials
    decreases |bs|
  {
    if bs == [] then stored else RegisterAll(Register(stored, bs[0]), bs[1..])
  }

  /** Whatever is registered later, the key and counter under an id stay those that were registered first. */
  lemma {:induction false} FirstRegistrationStays(stored: Credentials, bs: seq<Bytes>, id: Bytes)
    requires id in stored
    ensures id in RegisterAll(stored, bs) && RegisterAll(stored, bs)[id] == stored[id]
    decreases |bs|
  {
    hide Registered;
    if bs != [] { FirstRegistrationStays(Register(stored, bs[0]), bs[1..], id); }
  }

  /** An accepted object's own key and counter end up stored exactly when its id was free, or held just these. */
  lemma RegisterStoresIff(stored: Credentials, b: Bytes, c: Credential)
    requires Registered(b) == Some(c)
    ensures c.id in Register(stored, b)
    ensures Register(stored, b)[c.id] == c <==> (c.id !in stored || stored[c.id] == c)
  {
    hide Registered;
  }
}

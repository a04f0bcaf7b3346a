/** Encodings known from outside: numbers, strings and maps as Appendix A of RFC 8949 lists them, the bytes of authenticator data,
    the entries of the accepted keys, and one attestation object that registers. */
module KnownBytes {
  import opened Wrappers
  import opened Cbor
  import opened CborLaws
  import opened AuthData

  // ---- Numbers ----

  function Quad(a: int, b: int, c: int, d: int): int { 0x100_0000 * a + 0x1_0000 * b + 0x100 * c + d }

  /** The most significant byte comes first. */
  lemma BigEndian(a: Byte, b: Byte, c: Byte, d: Byte)
    ensures FromBE([]) == 0 && FromBE([a]) == a && FromBE([a, b]) == 256 * a + b
    ensures FromBE([a, b, c, d]) == 0x100_0000 * a + 0x1_0000 * b + 0x100 * c + d
  {
    assert [a][..0] == [] && [a, b][..1] == [a] && [a, b, c][..2] == [a, b] && [a, b, c, d][..3] == [a, b, c];
    assert FromBE([a, b]) == 256 * FromBE([a]) + b;
    assert FromBE([a, b, c]) == 256 * FromBE([a, b]) + c;
    assert FromBE([a, b, c, d]) == 256 * FromBE([a, b, c]) + d;
  }

  lemma EightBytes(e: Byte, f: Byte, g: Byte, h: Byte, a: Byte, b: Byte, c: Byte, d: Byte)
    ensures FromBE([e, f, g, h, a, b, c, d])
      == 0x1_0000_0000 * (0x100_0000 * e + 0x1_0000 * f + 0x100 * g + h) + (0x100_0000 * a + 0x1_0000 * b + 0x100 * c + d)
  {
    BigEndian(e, f, g, h);
    var s := [e, f, g, h];
    assert [e, f, g, h, a, b, c, d] == s + [a] + [b] + [c] + [d];
    OneMoreByte(s, a);
    OneMoreByte(s + [a], b);
    OneMoreByte(s + [a] + [b], c);
    OneMoreByte(s + [a] + [b] + [c], d);
  }

  lemma OneMoreByte(s: Bytes, b: Byte)
    ensures FromBE(s + [b]) == 256 * FromBE(s) + b
  {
    assert (s + [b])[..|s|] == s;
  }

  /** 0, 23, 24, 1000, 1000000, 1000000000000, and -1, -100, -1000. */
  lemma KnownNumbers()
    ensures ParseValue([0x00]) == Ok(Int(0), 1) && ParseValue([0x17]) == Ok(Int(23), 1)
    ensures ParseValue([0x18, 0x18]) == Ok(Int(24), 2)
    ensures ParseValue([0x19, 0x03, 0xe8]) == Ok(Int(1000), 3)
    ensures ParseValue([0x1a, 0x00, 0x0f, 0x42, 0x40]) == Ok(Int(1000000), 5)
    ensures ParseValue([0x1b, 0x00, 0x00, 0x00, 0xe8, 0xd4, 0xa5, 0x10, 0x00]) == Ok(Int(1000000000000), 9)
    ensures ParseValue([0x20]) == Ok(Int(-1), 1) && ParseValue([0x38, 0x63]) == Ok(Int(-100), 2)
    ensures ParseValue([0x39, 0x03, 0xe7]) == Ok(Int(-1000), 3)
  {
    hide ParseValue, FromBE;
    Small(0x00);
    Small(0x17);
    Small(0x20);
    OneByte(0x18, 0x18);
    OneByte(0x38, 0x63);
    TwoBytes(0x19, 0x03, 0xe8);
    TwoBytes(0x39, 0x03, 0xe7);
    FourBytes(0x1a, 0x00, 0x0f, 0x42, 0x40);
    Trillion();
  }

  lemma Trillion()
    ensures ParseValue([0x1b, 0x00, 0x00, 0x00, 0xe8, 0xd4, 0xa5, 0x10, 0x00]) == Ok(Int(1000000000000), 9)
  {
    hide FromBE, ParseMap;
    EightBytes(0x00, 0x00, 0x00, 0xe8, 0xd4, 0xa5, 0x10, 0x00);
    var b := [0x1b, 0x00, 0x00, 0x00, 0xe8, 0xd4, 0xa5, 0x10, 0x00];
    assert b[1..9] == [0x00, 0x00, 0x00, 0xe8, 0xd4, 0xa5, 0x10, 0x00];
  }

  /** A first byte below 24 or from 32 to 55 is a number of its own. */
  lemma Small(h: Byte)
    requires h < 24 || 32 <= h < 56
    ensures ParseValue([h]) == Ok(Int(if h < 24 then h else 31 - h), 1)
  {
  }

  lemma OneByte(h: Byte, a: Byte)
    requires h == 24 || h == 56
    ensures ParseValue([h, a]) == Ok(Int(if h == 24 then a else -1 - a), 2)
  {
    BigEndian(a, 0, 0, 0);
    assert [h, a][1..2] == [a];
  }

  lemma TwoBytes(h: Byte, a: Byte, b: Byte)
    requires h == 25 || h == 57
    ensures ParseValue([h, a, b]) == Ok(Int(if h == 25 then 256 * a + b else -1 - (256 * a + b)), 3)
  {
    BigEndian(a, b, 0, 0);
    assert [h, a, b][1..3] == [a, b];
  }

  lemma FourBytes(h: Byte, a: Byte, b: Byte, c: Byte, d: Byte)
    requires h == 26 || h == 58
    ensures var n := 0x100_0000 * a + 0x1_0000 * b + 0x100 * c + d;
      ParseValue([h, a, b, c, d]) == Ok(Int(if h == 26 then n else -1 - n), 5)
  {
    BigEndian(a, b, c, d);
    assert [h, a, b, c, d][1..5] == [a, b, c, d];
  }

  /** Byte strings, texts and maps. */
  lemma KnownItems()
    ensures ParseValue([0x40]) == Ok(Blob([]), 1) && ParseValue([0x44, 0x01, 0x02, 0x03, 0x04]) == Ok(Blob([1, 2, 3, 4]), 5)
    ensures ParseValue([0x60]) == Ok(Text([]), 1) && ParseValue([0x64, 0x49, 0x45, 0x54, 0x46]) == Ok(Text([0x49, 0x45, 0x54, 0x46]), 5)
    ensures ParseValue([0xa2, 0x01, 0x02, 0x03, 0x04]) == Ok(Map(map[1 := Int(2), 3 := Int(4)]), 5)
  {
    hide ParseValue;
    ShortString(0x40, []);
    ShortString(0x44, [1, 2, 3, 4]);
    ShortString(0x60, []);
    ShortString(0x64, [0x49, 0x45, 0x54, 0x46]);
    assert [0x40] + [] == [0x40] && [0x60] + [] == [0x60];
    assert [0x44] + [1, 2, 3, 4] == [0x44, 0x01, 0x02, 0x03, 0x04];
    assert [0x64] + [0x49, 0x45, 0x54, 0x46] == [0x64, 0x49, 0x45, 0x54, 0x46];
    TwoEntries();
  }

  lemma ShortString(h: Byte, s: Bytes)
    requires |s| < 24 && (h == 0x40 + |s| || h == 0x60 + |s|)
    ensures ParseValue([h] + s) == Ok(if h < 0x60 then Blob(s) else Text(s), 1 + |s|)
  {
    hide ParseValue;
    var item := Str(h >= 0x60, Direct, s);
    assert Encode(item) == [h] + s && Meaning(item) == if h < 0x60 then Blob(s) else Text(s);
    ReadsBack(item, []);
    assert [h] + s + [] == [h] + s;
  }

  function Digit(n: int): Item { if n < 0 then Num(true, Direct, -1 - n) else Num(false, Direct, n) }

  /** Numbers from -24 to 23 take one byte. */
  lemma DigitIs(n: int)
    requires -24 <= n < 24
    ensures Proper(Digit(n)) && Encode(Digit(n)) == [if n < 0 then 31 - n else n] && Meaning(Digit(n)) == Int(n)
  {
  }

  lemma IntMapMore(ps: Pairs, p: (Value, Value))
    requires (forall q | q in ps :: q.0.Int?) && p.0.Int?
    ensures forall q | q in ps + [p] :: q.0.Int?
    ensures IntMap(ps + [p]) == IntMap(ps)[p.0.i := p.1]
  {
    assert (ps + [p])[..|ps|] == ps;
  }

  lemma EntryIs(key: int, val: Item, tail: Entries)
    requires -24 <= key < 24 && Proper(val) && ProperAll(tail, false)
    ensures var es := Entry(Digit(key), val, tail);
      && ProperAll(es, false) && Count(es) == 1 + Count(tail)
      && EncodeAll(es, false) == [if key < 0 then 31 - key else key] + Encode(val) + EncodeAll(tail, false)
      && MeaningAll(es, false) == [(Int(key), Meaning(val))] + MeaningAll(tail, false)
  {
    DigitIs(key);
  }

  lemma NoEntries(textKeys: bool)
    ensures ProperAll(Nil, textKeys) && Count(Nil) == 0 && EncodeAll(Nil, textKeys) == [] && MeaningAll(Nil, textKeys) == []
    ensures IntMap([]) == map[]
  {
  }

  /** A map with fewer than 24 entries begins with a byte of its own. */
  lemma SmallMap(es: Entries)
    requires ProperAll(es, false) && Count(es) < 24
    ensures Proper(Dict(Direct, es)) && Encode(Dict(Direct, es)) == [0xa0 + Count(es)] + EncodeAll(es, false)
    ensures Meaning(Dict(Direct, es)) == Map(IntMap(MeaningAll(es, false)))
  {
  }

  lemma TwoEntries()
    ensures ParseValue([0xa2, 0x01, 0x02, 0x03, 0x04]) == Ok(Map(map[1 := Int(2), 3 := Int(4)]), 5)
  {
    hide *;
    var last := Entry(Digit(3), Digit(4), Nil);
    var es := Entry(Digit(1), Digit(2), last);
    DigitIs(2);
    DigitIs(4);
    NoEntries(false);
    EntryIs(3, Digit(4), Nil);
    EntryIs(1, Digit(2), last);
    SmallMap(es);
    IntMapMore([], (Int(1), Int(2)));
    IntMapMore([(Int(1), Int(2))], (Int(3), Int(4)));
    assert [] + [(Int(1), Int(2))] == [(Int(1), Int(2))] && [(Int(3), Int(4))] + [] == [(Int(3), Int(4))];
    assert map[][1 := Int(2)][3 := Int(4)] == map[1 := Int(2), 3 := Int(4)];
    var item := Dict(Direct, es);
    assert Encode(item) == [0xa2, 0x01, 0x02, 0x03, 0x04];
    ReadsBack(item, []);
    assert Encode(item) + [] == Encode(item);
  }

  // ---- Authenticator data ----

  /** The flag of attested credential data is the bit of value 64. */
  lemma FlagIff(flags: Byte)
    ensures AttestedFlag(flags) <==> 64 <= flags < 128 || 192 <= flags
  {
  }

  /** Where the fields of authenticator data lie. */
  lemma LayoutInFull(ad: AuthData)
    requires Laid(ad)
    ensures var b := Layout(ad);
      && b[..32] == ad.rpIdHash && b[32] == ad.flags
      && ad.signCount == Quad(b[33], b[34], b[35], b[36])
      && (ad.attested.Some? <==> 64 <= b[32] < 128 || 192 <= b[32])
      && (ad.attested.None? ==> |b| == 37)
    ensures ad.attested.Some? ==>
      var b, a := Layout(ad), ad.attested.value;
      && |b| >= 55 && |a.credentialId| == Quad(0, 0, b[53], b[54]) && |b| >= 55 + |a.credentialId|
      && b[37..53] == a.aaguid && b[55..55 + |a.credentialId|] == a.credentialId && b[55 + |a.credentialId|..] == a.coseKey
  {
    hide ToBE, FromBE;
    var b, n := Layout(ad), ToBE(ad.signCount, 4);
    assert b[33..37] == n;
    ToFromBE(ad.signCount, 4);
    assert n == [b[33], b[34], b[35], b[36]];
    BigEndian(b[33], b[34], b[35], b[36]);
    if ad.attested.Some? {
      var k := ToBE(|ad.attested.value.credentialId|, 2);
      assert b[53..55] == k;
      ToFromBE(|ad.attested.value.credentialId|, 2);
      assert k == [b[53], b[54]];
      BigEndian(b[53], b[54], 0, 0);
    }
  }

  // ---- Keys ----

  /** The entry is there as that number, or as bytes that are not empty. */
  predicate HasInt(m: map<int, Value>, k: int, i: int) { k in m && m[k] == Int(i) }

  predicate HasBytes(m: map<int, Value>, k: int) { k in m && m[k].Blob? && m[k].bytes != [] }

  /** ES256: key type 2, algorithm -7, x under -2 and y under -3. RS256: key type 3, algorithm -257, the modulus under -1 and the
      exponent under -2. Nothing else is accepted. */
  lemma KeyInFull(m: map<int, Value>)
    ensures KeyOf(m)
      == if HasInt(m, 1, 2) && HasInt(m, 3, -7) && HasBytes(m, -2) && HasBytes(m, -3)
         then Some(EllipticCurve(FromBE(m[-2].bytes), FromBE(m[-3].bytes)))
         else if HasInt(m, 1, 3) && HasInt(m, 3, -257) && HasBytes(m, -1) && HasBytes(m, -2)
         then Some(Rsa(FromBE(m[-1].bytes), Exponent(m[-2].bytes)))
         else None
  {
    hide FromBE, Exponent;
  }

  // ---- One object ----

  /** An ES256 key with x = 5 and y = 6: {1: 2, 3: -7, -1: 1, -2: h'05', -3: h'06'}. */
  const COSE_KEY: Bytes := [0xa5, 0x01, 0x02, 0x03, 0x26, 0x20, 0x01, 0x21, 0x41, 0x05, 0x22, 0x41, 0x06]

  function Blobby(b: Byte): Item { Str(false, Direct, [b]) }

  lemma BlobbyIs(b: Byte)
    ensures Proper(Blobby(b)) && Encode(Blobby(b)) == [0x41, b] && Meaning(Blobby(b)) == Blob([b])
  {
  }

  function KeyTail(): Entries {
    Entry(Digit(-1), Digit(1), Entry(Digit(-2), Blobby(5), Entry(Digit(-3), Blobby(6), Nil)))
  }

  function KeyItemOf(): Item {
    Dict(Direct, Entry(Digit(1), Digit(2), Entry(Digit(3), Digit(-7), KeyTail())))
  }

  lemma TailIs()
    ensures ProperAll(KeyTail(), false) && Count(KeyTail()) == 3
    ensures EncodeAll(KeyTail(), false) == [0x20, 0x01, 0x21, 0x41, 0x05, 0x22, 0x41, 0x06]
    ensures MeaningAll(KeyTail(), false) == [(Int(-1), Int(1)), (Int(-2), Blob([5])), (Int(-3), Blob([6]))]
  {
    hide Proper, ProperAll, Encode, EncodeAll, Meaning, MeaningAll, Digit, Blobby, Count;
    var e5 := Entry(Digit(-3), Blobby(6), Nil);
    var e4 := Entry(Digit(-2), Blobby(5), e5);
    DigitIs(1);
    BlobbyIs(5);
    BlobbyIs(6);
    NoEntries(false);
    EntryIs(-3, Blobby(6), Nil);
    EntryIs(-2, Blobby(5), e5);
    EntryIs(-1, Digit(1), e4);
  }

  lemma KeyEncodes()
    ensures Proper(KeyItemOf()) && Encode(KeyItemOf()) == COSE_KEY
    ensures Meaning(KeyItemOf()) == Map(map[1 := Int(2), 3 := Int(-7), -1 := Int(1), -2 := Blob([5]), -3 := Blob([6])])
  {
    hide Proper, ProperAll, Encode, EncodeAll, Meaning, MeaningAll, IntMap, Digit, Count, KeyTail;
    var e2 := Entry(Digit(3), Digit(-7), KeyTail());
    var e1 := Entry(Digit(1), Digit(2), e2);
    DigitIs(2);
    DigitIs(-7);
    TailIs();
    EntryIs(3, Digit(-7), KeyTail());
    EntryIs(1, Digit(2), e2);
    SmallMap(e1);
    KeyEntries();
    assert MeaningAll(e1, false) == [(Int(1), Int(2)), (Int(3), Int(-7)), (Int(-1), Int(1)), (Int(-2), Blob([5])), (Int(-3), Blob([6]))];
  }

  lemma KeyEntries()
    ensures IntMap([(Int(1), Int(2)), (Int(3), Int(-7)), (Int(-1), Int(1)), (Int(-2), Blob([5])), (Int(-3), Blob([6]))])
      == map[1 := Int(2), 3 := Int(-7), -1 := Int(1), -2 := Blob([5]), -3 := Blob([6])]
  {
    hide IntMap;
    var p1, p2, p3, p4, p5 := (Int(1), Int(2)), (Int(3), Int(-7)), (Int(-1), Int(1)), (Int(-2), Blob([5])), (Int(-3), Blob([6]));
    NoEntries(false);
    IntMapMore([], p1);
    IntMapMore([p1], p2);
    IntMapMore([p1, p2], p3);
    IntMapMore([p1, p2, p3], p4);
    IntMapMore([p1, p2, p3, p4], p5);
    assert [] + [p1] == [p1] && [p1] + [p2] == [p1, p2] && [p1, p2] + [p3] == [p1, p2, p3];
    assert [p1, p2, p3] + [p4] == [p1, p2, p3, p4] && [p1, p2, p3, p4] + [p5] == [p1, p2, p3, p4, p5];
  }

  lemma KeyParses()
    ensures ParseMap(COSE_KEY)
      == Ok(map[1 := Int(2), 3 := Int(-7), -1 := Int(1), -2 := Blob([5]), -3 := Blob([6])], |COSE_KEY|)
  {
    hide *;
    KeyEncodes();
    ReadsBack(KeyItemOf(), []);
    assert COSE_KEY + [] == COSE_KEY;
    DictIsMap(COSE_KEY);
  }

  lemma KeyIsES256()
    ensures KeyOf(map[1 := Int(2), 3 := Int(-7), -1 := Int(1), -2 := Blob([5]), -3 := Blob([6])]) == Some(EllipticCurve(5, 6))
  {
    hide KeyOf, FromBE;
    KeyInFull(map[1 := Int(2), 3 := Int(-7), -1 := Int(1), -2 := Blob([5]), -3 := Blob([6])]);
    BigEndian(5, 0, 0, 0);
    BigEndian(6, 0, 0, 0);
  }

  lemma KeyIsRead()
    ensures ParseMap(COSE_KEY).Ok? && KeyOf(ParseMap(COSE_KEY).value) == Some(EllipticCurve(5, 6)) && EncodesKey(COSE_KEY)
  {
    hide *;
    KeyParses();
    KeyIsES256();
    KeyParsesIff(COSE_KEY);
  }

  const ZEROS: Bytes := [0, 0, 0, 0, 0, 0, 0, 0, 0, 0, 0, 0, 0, 0, 0, 0]

  /** A zero hash of the relying party, the attested flag with the user present, counter 5, a zero AAGUID, the id h'09' and the key. */
  const AUTH_DATA: Bytes :=
    ZEROS + ZEROS + [0x41, 0x00, 0x00, 0x00, 0x05] + ZEROS + [0x00, 0x01, 0x09] + COSE_KEY

  const HOLDER: AuthData :=
    AuthData(ZEROS + ZEROS, 0x41, 5, Some(Attested(ZEROS, [9], COSE_KEY)))

  lemma HolderIsLaid()
    ensures Laid(HOLDER) && Layout(HOLDER) == AUTH_DATA && |AUTH_DATA| == 69
  {
    assert Pow256(2) == 0x1_0000 && Pow256(3) == 0x100_0000 && Pow256(4) == 0x1_0000_0000;
    assert ToBE(5, 1) == [5] && ToBE(0, 3) == [0, 0, 0];
    assert 5 / 256 == 0 && ToBE(5, 4) == ToBE(0, 3) + [5];
    assert ToBE(0, 1) == [0] && ToBE(1, 2) == ToBE(0, 1) + [1];
  }

  const FMT: Bytes := [0x66, 0x6d, 0x74]
  const NONE: Bytes := [0x6e, 0x6f, 0x6e, 0x65]
  const ATT_STMT: Bytes := [0x61, 0x74, 0x74, 0x53, 0x74, 0x6d, 0x74]
  const AUTH_DATA_NAME: Bytes := [0x61, 0x75, 0x74, 0x68, 0x44, 0x61, 0x74, 0x61]

  /** {"fmt": "none", "attStmt": {}, "authData": ...}. */
  const OBJECT: Bytes :=
    [0xa3, 0x63] + FMT + [0x64] + NONE + [0x67] + ATT_STMT + [0xa0, 0x68] + AUTH_DATA_NAME + [0x58, 69] + AUTH_DATA

  function Named(name: Bytes): Item { Str(true, Direct, name) }

  lemma NamedIs(name: Bytes)
    requires |name| < 24
    ensures Proper(Named(name)) && KeyItem(Named(name), true) && Encode(Named(name)) == [0x60 + |name|] + name && Meaning(Named(name)) == Text(name)
  {
  }

  lemma LongBlobIs(s: Bytes)
    requires |s| < 256
    ensures Proper(Str(false, One, s)) && Encode(Str(false, One, s)) == [0x58, |s|] + s && Meaning(Str(false, One, s)) == Blob(s)
  {
    assert Pow256(1) == 256 && ToBE(|s|, 0) == [] && ToBE(|s|, 1) == [|s|];
  }

  lemma NamedEntryIs(name: Bytes, val: Item, tail: Entries)
    requires |name| < 24 && Proper(val) && ProperAll(tail, true)
    ensures var es := Entry(Named(name), val, tail);
      && ProperAll(es, true) && Count(es) == 1 + Count(tail)
      && EncodeAll(es, true) == [0x60 + |name|] + name + Encode(val) + EncodeAll(tail, true)
      && MeaningAll(es, true) == [(Text(name), Meaning(val))] + MeaningAll(tail, true)
  {
    NamedIs(name);
  }

  function LastEntry(): Entries { Entry(Named(AUTH_DATA_NAME), Str(false, One, AUTH_DATA), Nil) }

  function ObjectEntries(): Entries {
    Entry(Named(FMT), Named(NONE), Entry(Named(ATT_STMT), Dict(Direct, Nil), LastEntry()))
  }

  lemma LastIs()
    ensures ProperAll(LastEntry(), true) && Count(LastEntry()) == 1
    ensures EncodeAll(LastEntry(), true) == [0x68] + AUTH_DATA_NAME + [0x58, 69] + AUTH_DATA
    ensures MeaningAll(LastEntry(), true) == [(Text(AUTH_DATA_NAME), Blob(AUTH_DATA))]
  {
    hide Proper, ProperAll, Encode, EncodeAll, Meaning, MeaningAll, Count;
    HolderIsLaid();
    NoEntries(true);
    LongBlobIs(AUTH_DATA);
    NamedEntryIs(AUTH_DATA_NAME, Str(false, One, AUTH_DATA), Nil);
  }

  lemma ObjectIs()
    ensures ProperAll(ObjectEntries(), true) && Count(ObjectEntries()) == 3
    ensures EncodeAll(ObjectEntries(), true)
      == [0x63] + FMT + [0x64] + NONE + [0x67] + ATT_STMT + [0xa0, 0x68] + AUTH_DATA_NAME + [0x58, 69] + AUTH_DATA
    ensures |MeaningAll(ObjectEntries(), true)| == 3 && MeaningAll(ObjectEntries(), true)[2] == (Text(AUTH_DATA_NAME), Blob(AUTH_DATA))
  {
    hide Proper, ProperAll, Encode, EncodeAll, Meaning, MeaningAll, Count, Named, LastEntry;
    LastIs();
    NoEntries(false);
    SmallMap(Nil);
    NamedIs(NONE);
    var middle := Entry(Named(ATT_STMT), Dict(Direct, Nil), LastEntry());
    NamedEntryIs(ATT_STMT, Dict(Direct, Nil), LastEntry());
    NamedEntryIs(FMT, Named(NONE), middle);
  }

  /** The object registers its id and key with counter 5, whatever follows it. */
  lemma KnownObjectRegisters(rest: Bytes)
    ensures Registered(OBJECT + rest) == Some(Credential([9], COSE_KEY, 5))
    ensures KeyOf(ParseMap(COSE_KEY).value) == Some(EllipticCurve(5, 6))
  {
    hide *;
    ObjectIs();
    HolderIsLaid();
    KeyIsRead();
    ObjectEncodes();
    HolderStores();
    AuthDataIsNamed();
    RegistrationKeepsCredential(Direct, ObjectEntries(), 2, HOLDER, Credential([9], COSE_KEY, 5), rest);
  }

  lemma AuthDataIsNamed()
    ensures AuthDataKey == AUTH_DATA_NAME
  {
  }

  lemma HolderStores()
    ensures Laid(HOLDER) && Stores(Layout(HOLDER), HOLDER, Credential([9], COSE_KEY, 5))
  {
    hide Laid, Layout, EncodesKey;
    HolderIsLaid();
    KeyIsRead();
  }

  lemma ThreeHead()
    ensures Fits(Direct, 3) && Head(5, Direct, 3) == [0xa3]
  {
  }

  lemma ObjectEncodes()
    ensures Fits(Direct, Count(ObjectEntries())) && ProperAll(ObjectEntries(), true) && EncodeAttestation(Direct, ObjectEntries()) == OBJECT
  {
    hide ProperAll, EncodeAll, Count, ObjectEntries, Head, Fits;
    hide FMT, NONE, ATT_STMT, AUTH_DATA_NAME, AUTH_DATA;
    ObjectIs();
    ThreeHead();
    Headed([0x63], FMT, [0x64], NONE, [0x67], ATT_STMT, [0xa0, 0x68], AUTH_DATA_NAME, [0x58, 69], AUTH_DATA);
  }

  lemma Headed(a: Bytes, b: Bytes, c: Bytes, d: Bytes, e: Bytes, f: Bytes, g: Bytes, h: Bytes, i: Bytes, j: Bytes)
    requires a == [0x63]
    ensures [0xa3] + (a + b + c + d + e + f + g + h + i + j) == [0xa3, 0x63] + b + c + d + e + f + g + h + i + j
  {
    assert [0xa3] + a == [0xa3, 0x63];
  }
}

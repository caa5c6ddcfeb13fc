/**
 Record envelopes (crates/avault-core/src/lib.rs) over an ideal AEAD: what an envelope opens under, despite the
 fallbacks for older additional data.
 */
module Envelope {
  import opened Bytes
  import opened Wrappers
  import Decimal
  import JsonText

  const WRAP_SCHEME: seq<byte> := Ascii("machine-aesgcm-v1")
  const WRAP_META_VERSION: byte := 1
  const KEY_BYTES: nat := 32

  type Key = bs: seq<byte> | |bs| == KEY_BYTES witness seq(KEY_BYTES, _ => 0)

  // ----- an ideal AEAD

  /** A ciphertext decrypts under the key, the nonce and the additional data of its encryption, and no others. */
  datatype Cipher =
    | Encrypted(key: Key, nonce: seq<byte>, plaintext: seq<byte>, aad: seq<byte>)
    | Forged(bytes: seq<byte>)

  function Decrypt(key: Key, nonce: seq<byte>, cipher: Cipher, aad: seq<byte>): Option<seq<byte>> {
    if cipher.Encrypted? && cipher.key == key && cipher.nonce == nonce && cipher.aad == aad then Some(cipher.plaintext) else None
  }

  // ----- envelopes

  datatype RecordMeta = Static | Keypair(publicKey: seq<byte>)

  datatype WrapMeta = WrapMeta(v: byte, scheme: seq<byte>, wrappedDek: Cipher, dekNonce: seq<byte>, record: Option<RecordMeta>)

  /** `meta` is `None` when the stored text is not the JSON of a wrap_meta. */
  datatype Sealed = Sealed(ciphertext: Cipher, nonce: seq<byte>, meta: Option<WrapMeta>)

  datatype OpenError = BadMeta | BadScheme | BadVersion | DekUnwrap | DekLength | ValueDecrypt

  // ----- additional data

  function Aad(name: seq<byte>): seq<byte> {
    name + WRAP_SCHEME + [WRAP_META_VERSION]
  }

  function Lower(b: byte): byte {
    if 0x41 <= b <= 0x5A then b + 0x20 else b
  }

  function Lowercase(text: seq<byte>): seq<byte> {
    seq(|text|, i requires 0 <= i < |text| => Lower(text[i]))
  }

  const NULL_TEXT: seq<byte> := Ascii("null")
  const STATIC_TEXT: seq<byte> := Ascii("{\"kind\":\"static\"}")
  const KEYPAIR_PART: seq<byte> := Ascii("{\"kind\":\"keypair\",") + Ascii("\"public_key\":")

  function RecordText(record: Option<RecordMeta>): seq<byte> {
    match record
    case None => NULL_TEXT
    case Some(Static) => STATIC_TEXT
    case Some(Keypair(publicKey)) => KEYPAIR_PART + (JsonText.Encoded(Lowercase(publicKey)) + END_PART)
  }

  function VersionText(v: byte): seq<byte> {
    VersionIsAscii(v);
    Ascii(Decimal.Text(v))
  }

  lemma VersionIsAscii(v: byte)
    ensures IsAscii(Decimal.Text(v))
  {
    Decimal.ValueOfText(v);
  }

  const DOMAIN_PART: seq<byte> := Ascii("{\"domain\":") + Ascii("\"avault:protected-record:aad:v2\"") + Ascii(",\"name\":")
  const RECORD_PART: seq<byte> := Ascii(",\"record\":")
  const SCHEME_PART: seq<byte> := Ascii(",\"scheme\":")
  const VERSION_PART: seq<byte> := Ascii(",\"version\":")
  const END_PART: seq<byte> := Ascii("}")

  function ProtectedAad(name: seq<byte>, meta: WrapMeta): seq<byte> {
    DOMAIN_PART + (JsonText.Encoded(name) + (RECORD_PART + (RecordText(meta.record) +
    (SCHEME_PART + (JsonText.Encoded(meta.scheme) + (VERSION_PART + (VersionText(meta.v) + END_PART)))))))
  }

  // ----- sealing and opening

  /** The random key and nonces are parameters. */
  function Seal(master: Key, name: seq<byte>, value: seq<byte>, dek: Key, valueNonce: seq<byte>, dekNonce: seq<byte>): Sealed {
    var meta := WrapMeta(WRAP_META_VERSION, WRAP_SCHEME, Encrypted(master, dekNonce, dek, []), dekNonce, None);
    Sealed(Encrypted(dek, valueNonce, value, Aad(name)), valueNonce, Some(meta))
  }

  function OpenValueWithDek(dek: Key, name: seq<byte>, box: Sealed): Result<seq<byte>, OpenError> {
    match Decrypt(dek, box.nonce, box.ciphertext, Aad(name))
    case Some(value) => Ok(value)
    case None =>
      match Decrypt(dek, box.nonce, box.ciphertext, [])
      case Some(value) => Ok(value)
      case None => Err(ValueDecrypt)
  }

  function OpenProtectedValueWithDek(dek: Key, name: seq<byte>, box: Sealed, meta: WrapMeta): Result<seq<byte>, OpenError> {
    match Decrypt(dek, box.nonce, box.ciphertext, ProtectedAad(name, meta))
    case Some(value) => Ok(value)
    case None =>
      match Decrypt(dek, box.nonce, box.ciphertext, Aad(name))
      case Some(value) => Ok(value)
      case None => Err(ValueDecrypt)
  }

  function CheckedMeta(box: Sealed): Result<WrapMeta, OpenError> {
    if box.meta.None? then Err(BadMeta)
    else if box.meta.value.scheme != WRAP_SCHEME then Err(BadScheme)
    else if box.meta.value.v != WRAP_META_VERSION then Err(BadVersion)
    else Ok(box.meta.value)
  }

  function Open(master: Key, name: seq<byte>, box: Sealed): Result<seq<byte>, OpenError> {
    match CheckedMeta(box)
    case Err(e) => Err(e)
    case Ok(meta) =>
      match Decrypt(master, meta.dekNonce, meta.wrappedDek, [])
      case None => Err(DekUnwrap)
      case Some(dek) => if |dek| != KEY_BYTES then Err(DekLength) else OpenValueWithDek(dek, name, box)
  }

  function OpenWithDek(dek: Key, name: seq<byte>, box: Sealed): Result<seq<byte>, OpenError> {
    match CheckedMeta(box)
    case Err(e) => Err(e)
    case Ok(meta) => OpenProtectedValueWithDek(dek, name, box, meta)
  }

  // ----- the three kinds of additional data are apart

  lemma AadLast(name: seq<byte>)
    ensures Aad(name) != [] && Aad(name)[|Aad(name)| - 1] == WRAP_META_VERSION
  {
  }

  lemma AadInjective(a: seq<byte>, b: seq<byte>)
    ensures Aad(a) == Aad(b) <==> a == b
  {
    assert |Aad(a)| == |a| + |WRAP_SCHEME| + 1 && |Aad(b)| == |b| + |WRAP_SCHEME| + 1;
    assert Aad(a)[..|a|] == a && Aad(b)[..|b|] == b;
  }

  lemma EndsWith(a: seq<byte>, b: seq<byte>, last: byte)
    requires b != [] && b[|b| - 1] == last
    ensures (a + b)[|a + b| - 1] == last
  {
  }

  lemma ProtectedAadLast(name: seq<byte>, meta: WrapMeta)
    ensures var aad := ProtectedAad(name, meta); aad != [] && aad[|aad| - 1] == 0x7D
  {
    hide RecordText, VersionText;
    var e8 := VersionText(meta.v) + END_PART;
    EndsWith(VersionText(meta.v), END_PART, 0x7D);
    var e7 := VERSION_PART + e8;
    EndsWith(VERSION_PART, e8, 0x7D);
    var e6 := JsonText.Encoded(meta.scheme) + e7;
    EndsWith(JsonText.Encoded(meta.scheme), e7, 0x7D);
    var e5 := SCHEME_PART + e6;
    EndsWith(SCHEME_PART, e6, 0x7D);
    var e4 := RecordText(meta.record) + e5;
    EndsWith(RecordText(meta.record), e5, 0x7D);
    var e3 := RECORD_PART + e4;
    EndsWith(RECORD_PART, e4, 0x7D);
    var e2 := JsonText.Encoded(name) + e3;
    EndsWith(JsonText.Encoded(name), e3, 0x7D);
    EndsWith(DOMAIN_PART, e2, 0x7D);
  }

  /** Neither kind of additional data is empty, and no record's first kind is any record's second. */
  lemma KindsApart(name: seq<byte>, other: seq<byte>, meta: WrapMeta)
    ensures Aad(name) != [] && ProtectedAad(other, meta) != [] && Aad(name) != ProtectedAad(other, meta)
  {
    hide Aad, ProtectedAad;
    AadLast(name);
    ProtectedAadLast(other, meta);
  }

  lemma Cancel(prefix: seq<byte>, x: seq<byte>, y: seq<byte>)
    requires prefix + x == prefix + y
    ensures x == y
  {
    assert (prefix + x)[|prefix|..] == x && (prefix + y)[|prefix|..] == y;
  }

  /** What the second kind binds of a record: its kind, and a public key up to the case of its letters. */
  predicate SameRecord(a: Option<RecordMeta>, b: Option<RecordMeta>) {
    match (a, b)
    case (None, None) => true
    case (Some(Static), Some(Static)) => true
    case (Some(Keypair(p)), Some(Keypair(q))) => Lowercase(p) == Lowercase(q)
    case _ => false
  }

  /** The eleventh byte tells the kinds apart. */
  function KindByte(record: Option<RecordMeta>): byte {
    match record
    case None => 0x6E
    case Some(Static) => 0x73
    case Some(Keypair(_)) => 0x6B
  }

  lemma KindShows(record: Option<RecordMeta>, x: seq<byte>)
    ensures RecordText(record) + x != []
    ensures (RecordText(record) + x)[0] == if record.None? then 0x6E else 0x7B
    ensures record.Some? ==> |RecordText(record) + x| > 9 && (RecordText(record) + x)[9] == KindByte(record)
  {
  }

  lemma KeypairUnique(p: seq<byte>, x: seq<byte>, q: seq<byte>, y: seq<byte>)
    requires KEYPAIR_PART + (JsonText.Encoded(p) + END_PART) + x == KEYPAIR_PART + (JsonText.Encoded(q) + END_PART) + y
    ensures p == q && x == y
  {
    hide JsonText.Encoded;
    assert KEYPAIR_PART + (JsonText.Encoded(p) + END_PART) + x == KEYPAIR_PART + (JsonText.Encoded(p) + (END_PART + x));
    assert KEYPAIR_PART + (JsonText.Encoded(q) + END_PART) + y == KEYPAIR_PART + (JsonText.Encoded(q) + (END_PART + y));
    Cancel(KEYPAIR_PART, JsonText.Encoded(p) + (END_PART + x), JsonText.Encoded(q) + (END_PART + y));
    JsonText.EncodedUnique(p, END_PART + x, q, END_PART + y);
    Cancel(END_PART, x, y);
  }

  lemma RecordUnique(a: Option<RecordMeta>, x: seq<byte>, b: Option<RecordMeta>, y: seq<byte>)
    requires RecordText(a) + x == RecordText(b) + y
    ensures SameRecord(a, b) && x == y
  {
    hide Lowercase, JsonText.Encoded;
    KindShows(a, x);
    KindShows(b, y);
    if a.Some? && a.value.Keypair? {
      KeypairUnique(Lowercase(a.value.publicKey), x, Lowercase(b.value.publicKey), y);
    } else if a.Some? {
      Cancel(STATIC_TEXT, x, y);
    } else {
      Cancel(NULL_TEXT, x, y);
    }
  }

  lemma VersionUnique(v: byte, w: byte)
    requires VersionText(v) + END_PART == VersionText(w) + END_PART
    ensures v == w
  {
    VersionIsAscii(v);
    VersionIsAscii(w);
    var s, t := Decimal.Text(v), Decimal.Text(w);
    assert |s| == |t|;
    forall i | 0 <= i < |s| ensures s[i] == t[i] {
      assert (VersionText(v) + END_PART)[i] == s[i] as int && (VersionText(w) + END_PART)[i] == t[i] as int;
    }
    Decimal.ValueOfText(v);
    Decimal.ValueOfText(w);
    assert s == t;
  }

  lemma SameProtected(name: seq<byte>, meta: WrapMeta, other: WrapMeta)
    requires SameRecord(meta.record, other.record) && meta.scheme == other.scheme && meta.v == other.v
    ensures ProtectedAad(name, meta) == ProtectedAad(name, other)
  {
    hide Lowercase, JsonText.Encoded, VersionText;
    assert RecordText(meta.record) == RecordText(other.record);
  }

  /** The second kind is injective in the name, the record's kind, the lower-cased public key, the scheme and the version. */
  lemma ProtectedAadInjective(a: seq<byte>, m: WrapMeta, b: seq<byte>, n: WrapMeta)
    ensures ProtectedAad(a, m) == ProtectedAad(b, n) <==>
            a == b && SameRecord(m.record, n.record) && m.scheme == n.scheme && m.v == n.v
  {
    hide RecordText, VersionText, SameRecord, JsonText.Encoded;
    if ProtectedAad(a, m) == ProtectedAad(b, n) {
      PartsAgree(a, m, b, n);
    } else if a == b && SameRecord(m.record, n.record) && m.scheme == n.scheme && m.v == n.v {
      SameProtected(a, m, n);
    }
  }

  function AfterRecord(m: WrapMeta): seq<byte> {
    SCHEME_PART + (JsonText.Encoded(m.scheme) + (VERSION_PART + (VersionText(m.v) + END_PART)))
  }

  lemma AfterRecordUnique(m: WrapMeta, n: WrapMeta)
    requires AfterRecord(m) == AfterRecord(n)
    ensures m.scheme == n.scheme && m.v == n.v
  {
    hide VersionText, JsonText.Encoded;
    var x, y := VERSION_PART + (VersionText(m.v) + END_PART), VERSION_PART + (VersionText(n.v) + END_PART);
    Cancel(SCHEME_PART, JsonText.Encoded(m.scheme) + x, JsonText.Encoded(n.scheme) + y);
    JsonText.EncodedUnique(m.scheme, x, n.scheme, y);
    Cancel(VERSION_PART, VersionText(m.v) + END_PART, VersionText(n.v) + END_PART);
    VersionUnique(m.v, n.v);
  }

  lemma PartsAgree(a: seq<byte>, m: WrapMeta, b: seq<byte>, n: WrapMeta)
    requires ProtectedAad(a, m) == ProtectedAad(b, n)
    ensures a == b && SameRecord(m.record, n.record) && m.scheme == n.scheme && m.v == n.v
  {
    hide RecordText, VersionText, SameRecord, JsonText.Encoded;
    var x, y := RecordText(m.record) + AfterRecord(m), RecordText(n.record) + AfterRecord(n);
    Cancel(DOMAIN_PART, JsonText.Encoded(a) + (RECORD_PART + x), JsonText.Encoded(b) + (RECORD_PART + y));
    JsonText.EncodedUnique(a, RECORD_PART + x, b, RECORD_PART + y);
    Cancel(RECORD_PART, x, y);
    RecordUnique(m.record, AfterRecord(m), n.record, AfterRecord(n));
    AfterRecordUnique(m, n);
  }

  // ----- what an envelope opens under

  /** A sealed value opens under its own master key and name, and under no others, despite the empty fallback. */
  lemma SealedOpensExactly(
    master: Key, name: seq<byte>, value: seq<byte>, dek: Key, valueNonce: seq<byte>, dekNonce: seq<byte>, otherMaster: Key, otherName: seq<byte>)
    ensures Open(otherMaster, otherName, Seal(master, name, value, dek, valueNonce, dekNonce)) ==
            if otherMaster != master then Err(DekUnwrap) else if otherName == name then Ok(value) else Err(ValueDecrypt)
  {
    hide Aad;
    AadInjective(otherName, name);
    AadLast(name);
  }

  /** The empty fallback lets through exactly the values that were encrypted without additional data, under any name. */
  lemma OpensExactly(master: Key, name: seq<byte>, box: Sealed, value: seq<byte>)
    ensures Open(master, name, box) == Ok(value) <==>
            exists dek: Key, aad ::
              && CheckedMeta(box).Ok? && Decrypt(master, box.meta.value.dekNonce, box.meta.value.wrappedDek, []) == Some(dek)
              && box.ciphertext == Encrypted(dek, box.nonce, value, aad) && (aad == Aad(name) || aad == [])
  {
    hide Aad;
    if Open(master, name, box) == Ok(value) {
      assert box.ciphertext == Encrypted(box.ciphertext.key, box.nonce, value, box.ciphertext.aad);
    }
  }

  /** The protected path opens exactly the values bound to this name, in either kind, and none without additional data. */
  lemma ProtectedOpensExactly(dek: Key, name: seq<byte>, box: Sealed, value: seq<byte>)
    ensures OpenWithDek(dek, name, box) == Ok(value) <==>
            exists aad ::
              && CheckedMeta(box).Ok? && box.ciphertext == Encrypted(dek, box.nonce, value, aad) && aad != []
              && (aad == ProtectedAad(name, box.meta.value) || aad == Aad(name))
  {
    hide Aad, ProtectedAad;
    if CheckedMeta(box).Ok? {
      KindsApart(name, name, box.meta.value);
    }
    if OpenWithDek(dek, name, box) == Ok(value) {
      assert box.ciphertext == Encrypted(dek, box.nonce, value, box.ciphertext.aad);
    }
  }

  /** A value encrypted for a protected record opens for that record only: the same name, kind and public key. */
  lemma {:induction false} ProtectedBound(dek: Key, name: seq<byte>, meta: WrapMeta, nonce: seq<byte>, value: seq<byte>, otherName: seq<byte>, box: Sealed)
    requires box.ciphertext == Encrypted(dek, nonce, value, ProtectedAad(name, meta)) && box.nonce == nonce
    requires meta.scheme == WRAP_SCHEME && meta.v == WRAP_META_VERSION
    ensures OpenWithDek(dek, otherName, box) == Ok(value) <==>
            CheckedMeta(box).Ok? && otherName == name && SameRecord(meta.record, box.meta.value.record)
  {
    hide Aad, ProtectedAad, SameRecord;
    KindsApart(otherName, name, meta);
    if CheckedMeta(box).Ok? {
      ProtectedAadInjective(name, meta, otherName, box.meta.value);
    }
  }

  /** A protected value does not open through the standard path under any name. */
  lemma ProtectedNotStandard(dek: Key, name: seq<byte>, meta: WrapMeta, value: seq<byte>, otherName: seq<byte>, master: Key, box: Sealed)
    requires box.ciphertext == Encrypted(dek, box.nonce, value, ProtectedAad(name, meta))
    ensures Open(master, otherName, box).Err?
  {
    hide Aad, ProtectedAad;
    KindsApart(otherName, name, meta);
  }

  /** The byte pushes of `aad`. */
  method BuildAad(name: seq<byte>) returns (out: seq<byte>)
    ensures out == Aad(name)
  {
    out := [];
    out := out + name;
    out := out + WRAP_SCHEME;
    out := out + [WRAP_META_VERSION];
  }
}

/**
 Blind boxes bound to one approved operation (crates/avault-core/src/blind_box.rs and the operation hashes of
 crates/avault-cli/src/main.rs), over an ideal HPKE and any hash.
 */
module BlindBox {
  import opened BigEndian
  import opened Bytes
  import opened Wrappers

  const AAD_DOMAIN: seq<byte> := Ascii("avault:blind-box:aad:v1")
  const WRAP_SCHEME: seq<byte> := Ascii("machine-aesgcm-v1")
  const WRAP_META_VERSION: byte := 1
  const KEY_BYTES: nat := 32

  datatype Purpose = Seal | AgentDeliver | AgentSign

  function PurposeText(p: Purpose): seq<byte> {
    match p
    case Seal => Ascii("seal")
    case AgentDeliver => Ascii("agent-deliver")
    case AgentSign => Ascii("agent-sign")
  }

  type Hash = bs: seq<byte> | |bs| == KEY_BYTES witness seq(KEY_BYTES, _ => 0)

  type UnixTime = n: nat | n <= U64_MAX

  datatype Context = Context(
    purpose: Purpose,
    name: seq<byte>,
    grantId: Option<seq<byte>>,
    signScheme: Option<seq<byte>>,
    digest: Option<Hash>,
    nonce: Option<seq<byte>>,
    expiresAt: Option<UnixTime>,
    operationHash: Option<Hash>)

  // ----- the constructors and builders

  function New(purpose: Purpose, name: seq<byte>): Context {
    Context(purpose, name, None, None, None, None, None, None)
  }

  datatype Start =
    | ForSeal(name: seq<byte>)
    | ForDeliver(grantId: seq<byte>, name: seq<byte>)
    | ForSign(grantId: seq<byte>, name: seq<byte>, scheme: seq<byte>, digest: Hash)

  function Started(start: Start): Context {
    match start
    case ForSeal(name) => New(Seal, name)
    case ForDeliver(grantId, name) => New(AgentDeliver, name).(grantId := Some(grantId))
    case ForSign(grantId, name, scheme, digest) =>
      New(AgentSign, name).(grantId := Some(grantId), signScheme := Some(scheme), digest := Some(digest))
  }

  datatype Builder =
    | WithApproval(nonce: seq<byte>, expiresAt: UnixTime)
    | WithOperationHash(hash: Hash)

  function Built(context: Context, builder: Builder): Context {
    match builder
    case WithApproval(nonce, expiresAt) => context.(nonce := Some(nonce), expiresAt := Some(expiresAt))
    case WithOperationHash(hash) => context.(operationHash := Some(hash))
  }

  function BuiltAll(context: Context, builders: seq<Builder>): Context
    decreases |builders|
  {
    if builders == [] then context else BuiltAll(Built(context, builders[0]), builders[1..])
  }

  /** Some constructor followed by any builders makes it. */
  ghost predicate Reachable(context: Context) {
    exists start, builders :: context == BuiltAll(Started(start), builders)
  }

  /** Which fields are there follows from the purpose, and a nonce comes with its expiry. */
  predicate Consistent(context: Context) {
    && (context.grantId.Some? <==> context.purpose != Seal)
    && (context.signScheme.Some? <==> context.purpose == AgentSign)
    && (context.digest.Some? <==> context.purpose == AgentSign)
    && (context.nonce.Some? <==> context.expiresAt.Some?)
  }

  lemma {:induction false} BuiltConsistent(context: Context, builders: seq<Builder>)
    requires Consistent(context)
    ensures Consistent(BuiltAll(context, builders))
    decreases |builders|
  {
    if builders != [] {
      BuiltConsistent(Built(context, builders[0]), builders[1..]);
    }
  }

  /** The contexts that can be made are exactly the consistent ones. */
  lemma ReachableExactly(context: Context)
    ensures Reachable(context) <==> Consistent(context)
  {
    if Consistent(context) {
      var start := match context.purpose
        case Seal => ForSeal(context.name)
        case AgentDeliver => ForDeliver(context.grantId.value, context.name)
        case AgentSign => ForSign(context.grantId.value, context.name, context.signScheme.value, context.digest.value);
      var approved := if context.nonce.Some? then [WithApproval(context.nonce.value, context.expiresAt.value)] else [];
      var hashed := if context.operationHash.Some? then [WithOperationHash(context.operationHash.value)] else [];
      BuildsBoth(Started(start), approved, hashed);
      assert context == BuiltAll(Started(start), approved + hashed);
    } else if start, builders :| context == BuiltAll(Started(start), builders) {
      BuiltConsistent(Started(start), builders);
    }
  }

  lemma BuildsBoth(context: Context, a: seq<Builder>, b: seq<Builder>)
    requires |a| <= 1 && |b| <= 1
    ensures BuiltAll(context, a + b) == BuiltAll(BuiltAll(context, a), b)
  {
    if a == [] {
      assert a + b == b;
    } else {
      assert (a + b)[1..] == b && a[1..] == [];
    }
  }

  // ----- the additional data

  function OrEmpty(field: Option<seq<byte>>): seq<byte> {
    if field.Some? then field.value else []
  }

  /** The fields in their order on the wire; the sixth is reserved and empty. */
  function AadFields(c: Context): seq<seq<byte>> {
    [PurposeText(c.purpose), c.name, WRAP_SCHEME, [WRAP_META_VERSION], OrEmpty(c.grantId), [], OrEmpty(c.signScheme),
     OrEmpty(c.digest), OrEmpty(c.nonce), if c.expiresAt.Some? then Bytes64(c.expiresAt.value) else [], OrEmpty(c.operationHash)]
  }

  /** Every field has a length that fits its prefix, without which the source panics. */
  predicate Fits(c: Context) {
    |c.name| <= U32_MAX && |OrEmpty(c.grantId)| <= U32_MAX && |OrEmpty(c.signScheme)| <= U32_MAX && |OrEmpty(c.nonce)| <= U32_MAX
  }

  lemma FitsShort(c: Context)
    requires Fits(c)
    ensures AllShort(AadFields(c))
  {
  }

  function Aad(c: Context): seq<byte>
    requires Fits(c)
  {
    FitsShort(c);
    AAD_DOMAIN + Fields(AadFields(c))
  }

  lemma PurposeTextsDiffer(p: Purpose, q: Purpose)
    requires PurposeText(p) == PurposeText(q)
    ensures p == q
  {
    assert |PurposeText(Seal)| == 4 && |PurposeText(AgentDeliver)| == 13 && |PurposeText(AgentSign)| == 10;
  }

  /** Contexts that can be made have different additional data: absent and empty fields never confuse two operations. */
  lemma AadInjective(a: Context, b: Context)
    requires Fits(a) && Fits(b) && Reachable(a) && Reachable(b)
    ensures Aad(a) == Aad(b) <==> a == b
  {
    ReachableExactly(a);
    ReachableExactly(b);
    if Aad(a) == Aad(b) {
      FieldsAgree(a, b);
      ContextsAgree(a, b);
    }
  }

  lemma FieldsAgree(a: Context, b: Context)
    requires Fits(a) && Fits(b) && Aad(a) == Aad(b)
    ensures AadFields(a) == AadFields(b)
  {
    hide Fields, AadFields;
    FitsShort(a);
    FitsShort(b);
    assert Aad(a)[|AAD_DOMAIN|..] == Fields(AadFields(a)) && Aad(b)[|AAD_DOMAIN|..] == Fields(AadFields(b));
    FieldsUnique(AadFields(a), AadFields(b));
  }

  lemma ContextsAgree(a: Context, b: Context)
    requires Consistent(a) && Consistent(b) && AadFields(a) == AadFields(b)
    ensures a == b
  {
    hide PurposeText, Bytes64;
    var f, g := AadFields(a), AadFields(b);
    assert f[0] == g[0] && f[1] == g[1] && f[4] == g[4] && f[6] == g[6] && f[7] == g[7] && f[8] == g[8] && f[9] == g[9] && f[10] == g[10];
    PurposeTextsDiffer(a.purpose, b.purpose);
    assert a.expiresAt.Some? <==> |f[9]| == 8;
    assert b.expiresAt.Some? <==> |g[9]| == 8;
    if a.expiresAt.Some? {
      Bytes64Injective(a.expiresAt.value, b.expiresAt.value);
    }
    assert a.operationHash.Some? <==> |f[10]| == KEY_BYTES;
    assert b.operationHash.Some? <==> |g[10]| == KEY_BYTES;
  }

  /** Without the constructors it would not be: an absent grant id reads like an empty one. */
  lemma UnreachableCollide(name: seq<byte>)
    requires |name| <= U32_MAX
    ensures var absent := New(AgentDeliver, name);
            var empty := absent.(grantId := Some([]));
            absent != empty && Reachable(empty) && !Reachable(absent) && Fits(absent) && Fits(empty) && Aad(absent) == Aad(empty)
  {
    var absent := New(AgentDeliver, name);
    var empty := absent.(grantId := Some([]));
    ReachableExactly(absent);
    ReachableExactly(empty);
    assert AadFields(absent) == AadFields(empty);
  }

  // ----- operation hashes

  /** The pre-image of `operation_hash`. */
  function Preimage(fields: seq<seq<byte>>): seq<byte>
    requires AllShort(fields)
  {
    Fields(fields)
  }

  datatype Operation =
    | Deliver(name: seq<byte>, ttl: UnixTime)
    | Sign(scheme: seq<byte>, digest: Hash, ttl: UnixTime)

  function OperationFields(op: Operation): seq<seq<byte>> {
    match op
    case Deliver(name, ttl) => [Ascii("agent-deliver"), name, Bytes64(ttl)]
    case Sign(scheme, digest, ttl) => [Ascii("agent-sign"), scheme, digest, Bytes64(ttl)]
  }

  predicate OperationFits(op: Operation) {
    if op.Deliver? then |op.name| <= U32_MAX else |op.scheme| <= U32_MAX
  }

  function OperationText(op: Operation): seq<byte>
    requires OperationFits(op)
  {
    Preimage(OperationFields(op))
  }

  /** Two grants share a pre-image only if purpose, bound fields and TTL all agree. */
  lemma OperationsAgree(a: Operation, b: Operation)
    requires OperationFits(a) && OperationFits(b)
    ensures OperationText(a) == OperationText(b) <==> a == b
  {
    hide Fields;
    var f, g := OperationFields(a), OperationFields(b);
    if OperationText(a) == OperationText(b) {
      FieldsUnique(f, g);
      assert f[|f| - 1] == g[|g| - 1] && f[1] == g[1] && |f| == |g|;
      assert |f| == 4 ==> f[2] == g[2];
      Bytes64Injective(a.ttl, b.ttl);
    }
  }

  // ----- what a box opens under

  /** An ideal HPKE ciphertext: it opens with the right key under the additional data it was sealed with, and no other. */
  datatype Box = Box(recipient: nat, aad: seq<byte>, plaintext: seq<byte>)

  function SealBox(recipient: nat, context: Context, plaintext: seq<byte>): Box
    requires Fits(context)
  {
    Box(recipient, Aad(context), plaintext)
  }

  function OpenBox(key: nat, box: Box, context: Context): Option<seq<byte>>
    requires Fits(context)
  {
    if box.recipient == key && box.aad == Aad(context) then Some(box.plaintext) else None
  }

  /** A box opens for the operation it was sealed for, and for no other. */
  lemma OpensExactly(recipient: nat, key: nat, sealedFor: Context, approved: Context, plaintext: seq<byte>)
    requires Fits(sealedFor) && Fits(approved) && Reachable(sealedFor) && Reachable(approved)
    ensures OpenBox(key, SealBox(recipient, sealedFor, plaintext), approved) ==
            if key == recipient && approved == sealedFor then Some(plaintext) else None
  {
    hide Aad;
    AadInjective(sealedFor, approved);
  }

  /** The approval of one released key: who released it, for what, with which nonce and until when. */
  datatype Release = Release(grantId: seq<byte>, name: seq<byte>, signing: Option<Signing>, nonce: seq<byte>, expiresAt: UnixTime, ttl: UnixTime)

  datatype Signing = Signing(scheme: seq<byte>, digest: Hash)

  function ReleaseOperation(r: Release): Operation {
    match r.signing
    case None => Deliver(r.name, r.ttl)
    case Some(signing) => Sign(signing.scheme, signing.digest, r.ttl)
  }

  predicate ReleaseFits(r: Release) {
    && |r.grantId| <= U32_MAX && |r.name| <= U32_MAX && |r.nonce| <= U32_MAX
    && (r.signing.Some? ==> |r.signing.value.scheme| <= U32_MAX)
  }

  /** The context the agent builds for a released key before it opens the box. */
  function ReleaseContext(r: Release, hash: seq<byte> -> Hash): Context
    requires ReleaseFits(r)
  {
    var start := match r.signing
      case None => ForDeliver(r.grantId, r.name)
      case Some(signing) => ForSign(r.grantId, r.name, signing.scheme, signing.digest);
    Built(Built(Started(start), WithApproval(r.nonce, r.expiresAt)), WithOperationHash(hash(OperationText(ReleaseOperation(r)))))
  }

  lemma ReleaseReachable(r: Release, hash: seq<byte> -> Hash)
    requires ReleaseFits(r)
    ensures Reachable(ReleaseContext(r, hash)) && Fits(ReleaseContext(r, hash))
  {
    ReachableExactly(ReleaseContext(r, hash));
  }

  /**
   With a hash that tells the two operations apart, a key box that one approval released opens for another only if
   grant, name, signing scheme and digest, nonce, expiry and TTL are all the same.
   */
  lemma ReleaseBound(a: Release, b: Release, hash: seq<byte> -> Hash, key: nat, plaintext: seq<byte>)
    requires ReleaseFits(a) && ReleaseFits(b)
    requires hash(OperationText(ReleaseOperation(a))) == hash(OperationText(ReleaseOperation(b))) ==>
               OperationText(ReleaseOperation(a)) == OperationText(ReleaseOperation(b))
    ensures Fits(ReleaseContext(a, hash)) && Fits(ReleaseContext(b, hash))
    ensures OpenBox(key, SealBox(key, ReleaseContext(a, hash), plaintext), ReleaseContext(b, hash)).Some? <==> a == b
  {
    hide Aad, OperationText;
    ReleaseReachable(a, hash);
    ReleaseReachable(b, hash);
    OpensExactly(key, key, ReleaseContext(a, hash), ReleaseContext(b, hash), plaintext);
    OperationsAgree(ReleaseOperation(a), ReleaseOperation(b));
  }

  // ----- the loops of the source

  method PushAadField(out: seq<byte>, value: seq<byte>) returns (longer: seq<byte>)
    requires |value| <= U32_MAX
    ensures longer == out + Field(value)
  {
    longer := out + Bytes32(|value|);
    longer := longer + value;
  }

  /** One more field of `all` after the first `k`. */
  lemma PushesField(all: seq<seq<byte>>, k: nat, out: seq<byte>)
    requires AllShort(all) && k < |all| && out == AAD_DOMAIN + Fields(all[..k]) + Field(all[k])
    ensures out == AAD_DOMAIN + Fields(all[..k + 1])
  {
    hide Field, Fields;
    FieldsAppend(all[..k], all[k]);
    assert all[..k + 1] == all[..k] + [all[k]];
  }

  lemma AadFieldsAre(c: Context)
    requires Fits(c)
    ensures var f := AadFields(c);
            && |f| == 11 && f[0] == PurposeText(c.purpose) && f[1] == c.name && f[2] == WRAP_SCHEME && f[3] == [WRAP_META_VERSION]
            && f[4] == OrEmpty(c.grantId) && f[5] == [] && f[6] == OrEmpty(c.signScheme) && f[7] == OrEmpty(c.digest)
            && f[8] == OrEmpty(c.nonce) && f[9] == (if c.expiresAt.Some? then Bytes64(c.expiresAt.value) else [])
            && f[10] == OrEmpty(c.operationHash)
            && forall k | 0 <= k < 11 :: |f[k]| <= U32_MAX
  {
    FitsShort(c);
  }

  method AadBytes(c: Context) returns (out: seq<byte>)
    requires Fits(c)
    ensures out == Aad(c)
  {
    hide Field, Fields, PurposeText, Bytes64, OrEmpty, AadFields, AllShort;
    FitsShort(c);
    AadFieldsAre(c);
    ghost var all := AadFields(c);
    out := AAD_DOMAIN;
    NoFields();
    assert all[..0] == [] && all[..11] == all;
    out := PushAadField(out, PurposeText(c.purpose));
    PushesField(all, 0, out);
    out := PushAadField(out, c.name);
    PushesField(all, 1, out);
    out := PushAadField(out, WRAP_SCHEME);
    PushesField(all, 2, out);
    out := PushAadField(out, [WRAP_META_VERSION]);
    PushesField(all, 3, out);
    out := PushAadField(out, OrEmpty(c.grantId));
    PushesField(all, 4, out);
    out := PushAadField(out, []);
    PushesField(all, 5, out);
    out := PushAadField(out, OrEmpty(c.signScheme));
    PushesField(all, 6, out);
    out := PushAadField(out, OrEmpty(c.digest));
    PushesField(all, 7, out);
    out := PushAadField(out, OrEmpty(c.nonce));
    PushesField(all, 8, out);
    out := PushAadField(out, if c.expiresAt.Some? then Bytes64(c.expiresAt.value) else []);
    PushesField(all, 9, out);
    out := PushAadField(out, OrEmpty(c.operationHash));
    PushesField(all, 10, out);
  }

  lemma NoFields()
    ensures Fields([]) == []
  {
  }

  /** What `operation_hash` feeds to its hasher, field by field. */
  method HashInput(fields: seq<seq<byte>>) returns (input: seq<byte>)
    requires AllShort(fields)
    ensures input == Preimage(fields)
  {
    hide Fields, Field;
    input := [];
    NoFields();
    assert fields[..0] == [];
    var k := 0;
    while k < |fields|
      invariant k <= |fields| && input == Fields(fields[..k])
    {
      FieldsAppend(fields[..k], fields[k]);
      assert fields[..k + 1] == fields[..k] + [fields[k]];
      input := PushAadField(input, fields[k]);
      k := k + 1;
    }
    assert fields[..k] == fields;
  }
}

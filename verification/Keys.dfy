/**
  Key rotation and event signatures (internal/storage/pki/authority.go, keystore.go, types.go,
  internal/events/signer.go, verifier.go).

  Ed25519 is a pair of functions; all that is used of it is that a signature made with a generated
  private key verifies under its public key.
 */
module Keys {
  import opened Hashing
  import opened Options

  datatype Status = Active | Rotating | Retired {
    function Rank(): nat {
      match this
      case Active => 0
      case Rotating => 1
      case Retired => 2
    }
  }

  datatype KeyPair = KeyPair(id: string, purpose: string, public: Bytes, private: Bytes, status: Status,
                             createdAt: int, notBefore: int, notAfter: int) {
    predicate IsUsable(at: int) {
      status == Active && notBefore <= at <= notAfter
    }

    predicate IsVerifyable(at: int) {
      status != Retired && at <= notAfter
    }
  }

  const PURPOSE_CA: string := "ca"
  const PURPOSE_EVENT_SIGNING: string := "event-signing"

  datatype Scheme = Scheme(sign: (Bytes, Bytes) -> Bytes, verify: (Bytes, Bytes, Bytes) -> bool)

  /** A public and a private key that belong together. */
  ghost predicate Belong(scheme: Scheme, public: Bytes, private: Bytes) {
    forall m {:trigger scheme.sign(private, m)} ::
      |scheme.sign(private, m)| > 0 && scheme.verify(public, m, scheme.sign(private, m))
  }

  /** A fresh identifier and key material, as drawn from the entropy source. */
  datatype Material = Material(id: string, public: Bytes, private: Bytes)

  type KeyMap = map<string, KeyPair>

  ghost predicate Fresh(scheme: Scheme, keys: KeyMap, m: Material) {
    m.id != "" && m.id !in keys && Belong(scheme, m.public, m.private)
  }

  predicate ActiveFor(keys: KeyMap, id: string, purpose: string) {
    id in keys && keys[id].purpose == purpose && keys[id].status == Active
  }

  ghost predicate NoActive(keys: KeyMap, purpose: string) {
    forall id :: id in keys ==> !ActiveFor(keys, id, purpose)
  }

  function NewKey(m: Material, purpose: string, now: int, ttl: int): KeyPair {
    KeyPair(m.id, purpose, m.public, m.private, Active, now, now, now + ttl)
  }

  function WithStatus(keys: KeyMap, id: string, status: Status): KeyMap
    requires id in keys
  {
    keys[id := keys[id].(status := status)]
  }

  // ---------------------------------------------------------------- steps

  datatype Op =
    | Generate(purpose: string, ttl: int, now: int, entropy: Option<Material>)
    | Rotate(purpose: string, ttl: int, now: int, entropy: Option<Material>)
    | Retire(id: string)
    | SignWith(id: string, bytes: Bytes)
    | EnsureRoot(ttl: int, now: int, entropy: Option<Material>)

  function AfterGenerate(keys: KeyMap, purpose: string, ttl: int, now: int, entropy: Option<Material>): KeyMap {
    if purpose == "" || entropy.None? then keys
    else keys[entropy.value.id := NewKey(entropy.value, purpose, now, ttl)]
  }

  ghost predicate Step(scheme: Scheme, s: KeyMap, op: Op, s': KeyMap) {
    && ((op.Generate? || op.Rotate? || op.EnsureRoot?) && op.entropy.Some? ==> Fresh(scheme, s, op.entropy.value))
    && match op
       case Generate(purpose, ttl, now, entropy) => s' == AfterGenerate(s, purpose, ttl, now, entropy)
       case Rotate(purpose, ttl, now, entropy) =>
         if NoActive(s, purpose) then s' == AfterGenerate(s, purpose, ttl, now, entropy)
         else exists id :: ActiveFor(s, id, purpose)
                           && s' == AfterGenerate(WithStatus(s, id, Rotating), purpose, ttl, now, entropy)
       case Retire(id) => s' == if id in s then WithStatus(s, id, Retired) else s
       case SignWith(id, bytes) => s' == s && ActiveFor(s, id, PURPOSE_EVENT_SIGNING)
       case EnsureRoot(ttl, now, entropy) =>
         s' == if NoActive(s, PURPOSE_CA) then AfterGenerate(s, PURPOSE_CA, ttl, now, entropy) else s
  }

  ghost predicate IsRun(scheme: Scheme, states: seq<KeyMap>, ops: seq<Op>) {
    && |states| == |ops| + 1 && states[0] == map[]
    && forall i :: 0 <= i < |ops| ==> Step(scheme, states[i], ops[i], states[i + 1])
  }

  /** Nothing about a key changes except its status, which only moves forward. */
  ghost predicate Advances(k: KeyPair, k': KeyPair) {
    k'.(status := k.status) == k && k.status.Rank() <= k'.status.Rank()
  }

  ghost predicate AllAdvance(s: KeyMap, s': KeyMap) {
    forall id :: id in s ==> id in s' && Advances(s[id], s'[id])
  }

  /** Every stored key is filed under its own identifier and its halves belong together. */
  ghost predicate Sound(scheme: Scheme, s: KeyMap) {
    forall id :: id in s ==> s[id].id == id && id != "" && Belong(scheme, s[id].public, s[id].private)
  }

  lemma {:induction false} GenerateAdvances(scheme: Scheme, s: KeyMap, purpose: string, ttl: int, now: int, entropy: Option<Material>)
    requires entropy.Some? ==> Fresh(scheme, s, entropy.value)
    ensures var s' := AfterGenerate(s, purpose, ttl, now, entropy);
            AllAdvance(s, s') && (Sound(scheme, s) ==> Sound(scheme, s'))
  {
    hide Belong;
  }

  lemma {:induction false} StatusAdvances(scheme: Scheme, s: KeyMap, id: string, status: Status)
    requires id in s && s[id].status.Rank() <= status.Rank()
    ensures var s' := WithStatus(s, id, status);
            && s'.Keys == s.Keys && AllAdvance(s, s') && (Sound(scheme, s) ==> Sound(scheme, s'))
  {
    hide Belong;
  }

  lemma {:induction false} AdvanceTwice(s: KeyMap, t: KeyMap, u: KeyMap)
    requires AllAdvance(s, t) && AllAdvance(t, u)
    ensures AllAdvance(s, u)
  {
    forall id | id in s ensures id in u && Advances(s[id], u[id]) {
      assert Advances(s[id], t[id]) && Advances(t[id], u[id]);
    }
  }

  lemma {:induction false} StepAdvances(scheme: Scheme, s: KeyMap, op: Op, s': KeyMap)
    requires Step(scheme, s, op, s')
    ensures AllAdvance(s, s')
    ensures Sound(scheme, s) ==> Sound(scheme, s')
  {
    hide Belong, NoActive, AllAdvance, Sound, AfterGenerate, WithStatus;
    AdvanceNone(s);
    match op
    case Generate(purpose, ttl, now, entropy) =>
      GenerateAdvances(scheme, s, purpose, ttl, now, entropy);
    case Rotate(purpose, ttl, now, entropy) =>
      GenerateAdvances(scheme, s, purpose, ttl, now, entropy);
      if !NoActive(s, purpose) {
        var id :| ActiveFor(s, id, purpose)
                  && s' == AfterGenerate(WithStatus(s, id, Rotating), purpose, ttl, now, entropy);
        var rotating := WithStatus(s, id, Rotating);
        StatusAdvances(scheme, s, id, Rotating);
        GenerateAdvances(scheme, rotating, purpose, ttl, now, entropy);
        AdvanceTwice(s, rotating, s');
      }
    case Retire(id) =>
      if id in s {
        StatusAdvances(scheme, s, id, Retired);
      }
    case SignWith(_, _) =>
    case EnsureRoot(ttl, now, entropy) =>
      GenerateAdvances(scheme, s, PURPOSE_CA, ttl, now, entropy);
  }

  lemma AdvanceNone(s: KeyMap)
    ensures AllAdvance(s, s)
  {}

  lemma {:induction false} RunAdvances(scheme: Scheme, states: seq<KeyMap>, ops: seq<Op>, i: nat, j: nat)
    requires IsRun(scheme, states, ops) && i <= j < |states|
    ensures AllAdvance(states[i], states[j]) && Sound(scheme, states[i])
    decreases j
  {
    hide *;
    RunStep(scheme, states, ops, j);
    AdvanceNone(states[j]);
    if j > 0 {
      StepAdvances(scheme, states[j - 1], ops[j - 1], states[j]);
      RunAdvances(scheme, states, ops, if i < j then i else j - 1, j - 1);
      if i < j {
        AdvanceTwice(states[i], states[j - 1], states[j]);
      }
    }
  }

  lemma RunStep(scheme: Scheme, states: seq<KeyMap>, ops: seq<Op>, j: nat)
    requires IsRun(scheme, states, ops) && j < |states|
    ensures |ops| == |states| - 1
    ensures if j == 0 then Sound(scheme, states[0]) else Step(scheme, states[j - 1], ops[j - 1], states[j])
  {
    hide Step;
  }

  // ---------------------------------------------------------------- events

  /** An event: the part that is signed, and its signature. */
  datatype Event<T> = Event(body: T, signature: Bytes, signerKeyId: string)

  datatype Verdict = Valid | SignatureMissing | SignerKeyUnknown | SignerKeyRetired | BadCanonical | SignatureInvalid

  function Verify<T>(scheme: Scheme, canonical: T -> Option<Bytes>, keys: KeyMap, now: int, e: Event<T>): Verdict {
    if e.signature == [] || e.signerKeyId == "" then SignatureMissing
    else if e.signerKeyId !in keys then SignerKeyUnknown
    else
      var kp := keys[e.signerKeyId];
      if !kp.IsVerifyable(now) then SignerKeyRetired
      else if kp.purpose != PURPOSE_EVENT_SIGNING then SignerKeyUnknown
      else if canonical(e.body).None? then BadCanonical
      else if !scheme.verify(kp.public, canonical(e.body).value, e.signature) then SignatureInvalid
      else Valid
  }

  /** Exactly when each verdict is given. */
  lemma {:induction false} VerdictMeans<T>(scheme: Scheme, canonical: T -> Option<Bytes>, keys: KeyMap, now: int, e: Event<T>)
    ensures var v, id := Verify(scheme, canonical, keys, now, e), e.signerKeyId;
            var signed := e.signature != [] && id != "";
            var alive := signed && id in keys && keys[id].status != Retired && now <= keys[id].notAfter;
            var encodes := alive && keys[id].purpose == "event-signing" && canonical(e.body).Some?;
            && (v == SignatureMissing <==> !signed)
            && (v == SignerKeyRetired <==> signed && id in keys && !alive)
            && (v == SignerKeyUnknown <==> signed && (id !in keys || (alive && keys[id].purpose != "event-signing")))
            && (v == BadCanonical <==> alive && keys[id].purpose == "event-signing" && canonical(e.body).None?)
            && (v == SignatureInvalid <==> encodes && !scheme.verify(keys[id].public, canonical(e.body).value, e.signature))
            && (v == Valid <==> encodes && scheme.verify(keys[id].public, canonical(e.body).value, e.signature))
  {}

  /** Signing with some active event-signing key. */
  ghost predicate SignedBy<T(!new)>(scheme: Scheme, canonical: T -> Option<Bytes>, keys: KeyMap, e: Event<T>) {
    && ActiveFor(keys, e.signerKeyId, PURPOSE_EVENT_SIGNING)
    && canonical(e.body).Some?
    && e.signature == scheme.sign(keys[e.signerKeyId].private, canonical(e.body).value)
  }

  /**
    An event signed at some point of a run verifies at every later point exactly while its key is
    not retired and the clock has not passed the key's NotAfter.
   */
  lemma {:induction false} SignedVerifies<T(!new)>(scheme: Scheme, canonical: T -> Option<Bytes>, states: seq<KeyMap>,
                                                   ops: seq<Op>, i: nat, j: nat, e: Event<T>, now: int)
    requires IsRun(scheme, states, ops) && i <= j < |states| && SignedBy(scheme, canonical, states[i], e)
    ensures e.signerKeyId in states[j]
    ensures Verify(scheme, canonical, states[j], now, e) == Valid <==>
            states[j][e.signerKeyId].status != Retired && now <= states[i][e.signerKeyId].notAfter
  {
    RunAdvances(scheme, states, ops, i, j);
    var id := e.signerKeyId;
    assert Advances(states[i][id], states[j][id]);
    assert Belong(scheme, states[i][id].public, states[i][id].private);
  }

  /** The run signed these bytes with this key, and this is the signature it made. */
  ghost predicate MadeInRun(scheme: Scheme, states: seq<KeyMap>, ops: seq<Op>, j: nat, id: string, bytes: Bytes, signature: Bytes)
    requires j < |states| && id in states[j]
  {
    signature == scheme.sign(states[j][id].private, bytes) && exists k :: 0 <= k < j && k < |ops| && ops[k] == SignWith(id, bytes)
  }

  /**
    Tamper detection over runs: unless a signature was forged, an event is accepted exactly when its
    canonical bytes were signed in the run with the key it names, its signature is the one made then,
    the key is not retired and the clock has not passed its end.
   */
  lemma {:induction false} AcceptedIffSigned<T(!new)>(scheme: Scheme, canonical: T -> Option<Bytes>, states: seq<KeyMap>,
                                                      ops: seq<Op>, j: nat, e: Event<T>, now: int)
    requires IsRun(scheme, states, ops) && j < |states|
    requires e.signerKeyId in states[j] && canonical(e.body).Some?
             && scheme.verify(states[j][e.signerKeyId].public, canonical(e.body).value, e.signature) ==>
               MadeInRun(scheme, states, ops, j, e.signerKeyId, canonical(e.body).value, e.signature)
    ensures Verify(scheme, canonical, states[j], now, e) == Valid <==>
            && e.signerKeyId in states[j] && canonical(e.body).Some?
            && MadeInRun(scheme, states, ops, j, e.signerKeyId, canonical(e.body).value, e.signature)
            && states[j][e.signerKeyId].status != Retired && now <= states[j][e.signerKeyId].notAfter
  {
    var id := e.signerKeyId;
    VerdictMeans(scheme, canonical, states[j], now, e);
    hide Verify, IsRun, Belong;
    if id in states[j] && canonical(e.body).Some?
       && MadeInRun(scheme, states, ops, j, id, canonical(e.body).value, e.signature)
    {
      var k :| 0 <= k < j && k < |ops| && ops[k] == SignWith(id, canonical(e.body).value);
      SignedEarlier(scheme, states, ops, k, j, id, canonical(e.body).value);
      SignedVerifies(scheme, canonical, states, ops, k, j, e, now);
    }
  }

  lemma {:induction false} SignedEarlier(scheme: Scheme, states: seq<KeyMap>, ops: seq<Op>, k: nat, j: nat, id: string, bytes: Bytes)
    requires IsRun(scheme, states, ops) && k < j < |states| && ops[k] == SignWith(id, bytes) && id in states[j]
    ensures ActiveFor(states[k], id, PURPOSE_EVENT_SIGNING)
    ensures states[k][id].private == states[j][id].private && states[k][id].notAfter == states[j][id].notAfter
  {
    assert Step(scheme, states[k], ops[k], states[k + 1]);
    RunAdvances(scheme, states, ops, k, j);
    assert Advances(states[k][id], states[j][id]);
  }

  /** The public key accepts nothing but what the private key makes. */
  ghost predicate Exclusive(scheme: Scheme, public: Bytes, private: Bytes) {
    forall m, s {:trigger scheme.verify(public, m, s)} :: scheme.verify(public, m, s) ==> s == scheme.sign(private, m)
  }

  /**
    An event changed after signing, signature kept, is refused for ever, unless the key signs its
    old and its new bytes alike.
   */
  lemma {:induction false} TamperedIsRefused<T(!new)>(scheme: Scheme, canonical: T -> Option<Bytes>, states: seq<KeyMap>,
                                                      ops: seq<Op>, i: nat, j: nat, e: Event<T>, f: Event<T>, now: int)
    requires IsRun(scheme, states, ops) && i <= j < |states| && SignedBy(scheme, canonical, states[i], e)
    requires Exclusive(scheme, states[i][e.signerKeyId].public, states[i][e.signerKeyId].private)
    requires f.signature == e.signature && f.signerKeyId == e.signerKeyId && canonical(f.body) != canonical(e.body)
    ensures || Verify(scheme, canonical, states[j], now, f) != Valid
            || (canonical(f.body).Some?
                && var private := states[i][e.signerKeyId].private;
                   scheme.sign(private, canonical(e.body).value) == scheme.sign(private, canonical(f.body).value))
  {
    RunAdvances(scheme, states, ops, i, j);
    assert Advances(states[i][e.signerKeyId], states[j][e.signerKeyId]);
    VerdictMeans(scheme, canonical, states[j], now, f);
  }

  /** Once a key is retired, no event of that key is ever accepted again. */
  lemma {:induction false} RetiredRefuses<T(!new)>(scheme: Scheme, canonical: T -> Option<Bytes>, states: seq<KeyMap>,
                                                   ops: seq<Op>, k: nat, j: nat, e: Event<T>, now: int)
    requires IsRun(scheme, states, ops) && k < j < |states| && ops[k] == Retire(e.signerKeyId) && e.signerKeyId in states[k]
    ensures Verify(scheme, canonical, states[j], now, e) in {SignatureMissing, SignerKeyRetired}
  {
    assert Step(scheme, states[k], ops[k], states[k + 1]);
    RunAdvances(scheme, states, ops, k + 1, j);
    assert Advances(states[k + 1][e.signerKeyId], states[j][e.signerKeyId]);
    VerdictMeans(scheme, canonical, states[j], now, e);
  }

  /** Rotations alone never invalidate a signature. */
  lemma {:induction false} RotationKeepsSignatures<T(!new)>(scheme: Scheme, canonical: T -> Option<Bytes>, states: seq<KeyMap>,
                                                            ops: seq<Op>, i: nat, j: nat, e: Event<T>, now: int)
    requires IsRun(scheme, states, ops) && i <= j < |states| && SignedBy(scheme, canonical, states[i], e)
    requires forall k :: i <= k < j ==> ops[k] != Retire(e.signerKeyId)
    requires now <= states[i][e.signerKeyId].notAfter
    ensures Verify(scheme, canonical, states[j], now, e) == Valid
  {
    SignedVerifies(scheme, canonical, states, ops, i, j, e, now);
    NotRetired(scheme, states, ops, i, j, e.signerKeyId);
  }

  lemma {:induction false} NotRetired(scheme: Scheme, states: seq<KeyMap>, ops: seq<Op>, i: nat, j: nat, id: string)
    requires IsRun(scheme, states, ops) && i <= j < |states| && id in states[i] && states[i][id].status != Retired
    requires forall k :: i <= k < j ==> ops[k] != Retire(id)
    ensures id in states[j] && states[j][id].status != Retired
    decreases j
  {
    if i < j {
      NotRetired(scheme, states, ops, i, j - 1, id);
      assert Step(scheme, states[j - 1], ops[j - 1], states[j]);
      StepAdvances(scheme, states[j - 1], ops[j - 1], states[j]);
      OnlyRetireRetires(scheme, states[j - 1], ops[j - 1], states[j], id);
    }
  }

  lemma OnlyRetireRetires(scheme: Scheme, s: KeyMap, op: Op, s': KeyMap, id: string)
    requires Step(scheme, s, op, s') && id in s && id in s' && s[id].status != Retired && op != Retire(id)
    ensures s'[id].status != Retired
  {}

  /** Under a clock that never runs back, an event that stopped verifying never verifies again. */
  lemma {:induction false} NeverAgain<T(!new)>(scheme: Scheme, canonical: T -> Option<Bytes>, states: seq<KeyMap>,
                                               ops: seq<Op>, i: nat, j: nat, k: nat, e: Event<T>, now: int, later: int)
    requires IsRun(scheme, states, ops) && i <= j <= k < |states| && SignedBy(scheme, canonical, states[i], e)
    requires now <= later && Verify(scheme, canonical, states[j], now, e) != Valid
    ensures Verify(scheme, canonical, states[k], later, e) != Valid
  {
    SignedVerifies(scheme, canonical, states, ops, i, j, e, now);
    SignedVerifies(scheme, canonical, states, ops, i, k, e, later);
    RunAdvances(scheme, states, ops, j, k);
    assert Advances(states[j][e.signerKeyId], states[k][e.signerKeyId]);
  }

  /** The active key is not checked for expiry: an expired key still signs, and nothing verifies. */
  lemma {:induction false} ExpiredKeySigns<T(!new)>(scheme: Scheme, canonical: T -> Option<Bytes>, states: seq<KeyMap>,
                                                    ops: seq<Op>, i: nat, e: Event<T>, now: int)
    requires IsRun(scheme, states, ops) && i < |states| && SignedBy(scheme, canonical, states[i], e)
    requires now > states[i][e.signerKeyId].notAfter
    ensures !states[i][e.signerKeyId].IsUsable(now) && Verify(scheme, canonical, states[i], now, e) == SignerKeyRetired
  {
    RunAdvances(scheme, states, ops, i, i);
    assert Belong(scheme, states[i][e.signerKeyId].public, states[i][e.signerKeyId].private);
    assert |e.signature| > 0;
  }

  /** It happens: one generated key, and a clock past its end. */
  lemma {:induction false} ExpiredKeyRun<T(!new)>(scheme: Scheme, canonical: T -> Option<Bytes>, m: Material, body: T,
                                                  ttl: int, start: int, now: int)
    returns (states: seq<KeyMap>, ops: seq<Op>, e: Event<T>)
    requires m.id != "" && Belong(scheme, m.public, m.private) && canonical(body).Some? && now > start + ttl
    ensures IsRun(scheme, states, ops) && |ops| == 1 && SignedBy(scheme, canonical, states[1], e)
    ensures now > states[1][e.signerKeyId].notAfter && Verify(scheme, canonical, states[1], now, e) == SignerKeyRetired
  {
    var op := Generate(PURPOSE_EVENT_SIGNING, ttl, start, Some(m));
    var keys: KeyMap := map[m.id := NewKey(m, PURPOSE_EVENT_SIGNING, start, ttl)];
    states, ops := [map[], keys], [op];
    e := Event(body, scheme.sign(m.private, canonical(body).value), m.id);
    hide Belong;
    assert Step(scheme, map[], op, keys);
    ExpiredKeySigns(scheme, canonical, states, ops, 1, e, now);
  }

  // ---------------------------------------------------------------- the objects

  class NetworkEvent<T> {
    const body: T
    var signature: Bytes
    var signerKeyId: string

    constructor (body: T)
      ensures this.body == body && signature == [] && signerKeyId == ""
    {
      this.body, signature, signerKeyId := body, [], "";
    }

    function Value(): Event<T>
      reads this
    {
      Event(body, signature, signerKeyId)
    }
  }

  /** The key was just generated: active, for the purpose, valid from now for the given time. */
  predicate IsNew(keys: KeyMap, purpose: string, ttl: int, now: int, m: Material) {
    && m.id in keys
    && var kp := keys[m.id];
       && kp.id == m.id && kp.purpose == purpose && kp.public == m.public && kp.private == m.private
       && kp.status == Active && kp.createdAt == kp.notBefore == now && kp.notAfter == now + ttl
  }

  datatype SignResult = Signed | NoActiveKey | CanonicalFailed

  class Authority {
    var keys: KeyMap

    constructor ()
      ensures keys == map[]
    {
      keys := map[];
    }

    /** Any active key of the purpose: the store iterates a Go map. */
    method ActiveByPurpose(purpose: string) returns (id: Option<string>)
      ensures id.Some? ==> ActiveFor(keys, id.value, purpose)
      ensures id.None? ==> NoActive(keys, purpose)
    {
      var todo := keys.Keys;
      while todo != {}
        invariant todo <= keys.Keys && forall k :: k in keys && k !in todo ==> !ActiveFor(keys, k, purpose)
        decreases todo
      {
        var k :| k in todo;
        if keys[k].purpose == purpose && keys[k].status == Active {
          return Some(k);
        }
        todo := todo - {k};
      }
      return None;
    }

    method GenerateKeyPair(ghost scheme: Scheme, purpose: string, ttl: int, now: int, entropy: Option<Material>)
      returns (made: bool)
      requires entropy.Some? ==> Fresh(scheme, keys, entropy.value)
      modifies this
      ensures Step(scheme, old(keys), Generate(purpose, ttl, now, entropy), keys)
      ensures made <==> purpose != "" && entropy.Some?
      ensures !made ==> keys == old(keys)
      ensures made ==> IsNew(keys, purpose, ttl, now, entropy.value) && keys - {entropy.value.id} == old(keys)
    {
      if purpose == "" {
        return false;
      }
      if entropy.None? {
        return false;
      }
      var kp := NewKey(entropy.value, purpose, now, ttl);
      keys := keys[kp.id := kp];
      return true;
    }

    method RotateKey(ghost scheme: Scheme, purpose: string, ttl: int, now: int, entropy: Option<Material>)
      returns (made: bool)
      requires entropy.Some? ==> Fresh(scheme, keys, entropy.value)
      modifies this
      ensures Step(scheme, old(keys), Rotate(purpose, ttl, now, entropy), keys)
      ensures made <==> purpose != "" && entropy.Some?
      ensures made ==> IsNew(keys, purpose, ttl, now, entropy.value)
      ensures !NoActive(old(keys), purpose) ==>
                exists id :: ActiveFor(old(keys), id, purpose) && id in keys && keys[id] == old(keys)[id].(status := Rotating)
    {
      var current := ActiveByPurpose(purpose);
      if current.Some? {
        keys := WithStatus(keys, current.value, Rotating);
      }
      ghost var rotated := keys;
      made := GenerateKeyPair(scheme, purpose, ttl, now, entropy);
      if current.Some? {
        assert rotated[current.value] == old(keys)[current.value].(status := Rotating);
        assert made ==> current.value in keys - {entropy.value.id};
        assert keys[current.value] == rotated[current.value];
      }
    }

    method RetireKey(ghost scheme: Scheme, id: string) returns (found: bool)
      modifies this
      ensures Step(scheme, old(keys), Retire(id), keys) && found == (id in old(keys))
      ensures !found ==> keys == old(keys)
      ensures found ==> id in keys && keys[id].status == Retired && keys - {id} == old(keys) - {id}
    {
      if id !in keys {
        return false;
      }
      keys := WithStatus(keys, id, Retired);
      return true;
    }

    method EnsureRootCA(ghost scheme: Scheme, ttl: int, now: int, entropy: Option<Material>)
      requires entropy.Some? ==> Fresh(scheme, keys, entropy.value)
      modifies this
      ensures Step(scheme, old(keys), EnsureRoot(ttl, now, entropy), keys)
      ensures !NoActive(old(keys), "ca") ==> keys == old(keys)
      ensures NoActive(old(keys), "ca") && entropy.Some? ==> IsNew(keys, "ca", ttl, now, entropy.value)
    {
      var current := ActiveByPurpose(PURPOSE_CA);
      if current.None? {
        var made := GenerateKeyPair(scheme, PURPOSE_CA, ttl, now, entropy);
      }
    }

    /** Signs in place; a failed encoding leaves the event without any signature. */
    method Sign<T(!new)>(scheme: Scheme, canonical: T -> Option<Bytes>, e: NetworkEvent<T>) returns (r: SignResult)
      modifies e
      ensures r == Signed ==> SignedBy(scheme, canonical, keys, e.Value())
      ensures r == Signed ==> Step(scheme, keys, SignWith(e.signerKeyId, canonical(e.body).value), keys)
      ensures r == NoActiveKey ==> NoActive(keys, PURPOSE_EVENT_SIGNING) && e.Value() == old(e.Value())
      ensures r == CanonicalFailed ==> canonical(e.body).None? && e.Value() == Event(e.body, [], "")
    {
      var id := ActiveByPurpose(PURPOSE_EVENT_SIGNING);
      if id.None? {
        return NoActiveKey;
      }
      e.signature, e.signerKeyId := [], "";
      var bytes := canonical(e.body);
      if bytes.None? {
        return CanonicalFailed;
      }
      e.signature := scheme.sign(keys[id.value].private, bytes.value);
      e.signerKeyId := id.value;
      return Signed;
    }
  }
}

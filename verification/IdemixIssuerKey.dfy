/** The issuer key pair with its proof of knowledge, and the protocol from key generation to a verified signature. */
module IdemixIssuerKey {
  import opened Field
  import opened Transcript
  import opened IdemixSuite
  import opened IdemixIssuance
  import opened IdemixSignature
  import opened Wrappers

  datatype IssuerKey = IssuerKey(isk: nat, ipk: IssuerPublicKey)

  datatype KeyRandomness = KeyRandomness(isk: nat, attrs: seq<nat>, sk: nat, rand: nat, bar: nat, r: nat)

  datatype KeyOutcome<+T> = KeyOk(value: T) | DuplicateAttribute | KeyUndefined | KeyProofInvalid

  const KEY_DATA_SIZE: nat := 18 * FIELD_BYTES + 3

  ghost predicate Distinct(names: seq<string>) {
    forall i, j :: 0 <= i < j < |names| ==> names[i] != names[j]
  }

  /** The duplicate check of the key generation. */
  method HasDuplicates(names: seq<string>) returns (dup: bool)
    ensures dup <==> !Distinct(names)
    ensures dup <==> exists i, j :: 0 <= i < j < |names| && names[i] == names[j]
  {
    var seen: set<string> := {};
    for k := 0 to |names|
      invariant forall x :: x in seen <==> x in names[..k]
      invariant Distinct(names[..k])
    {
      if names[k] in seen {
        var i :| 0 <= i < k && names[..k][i] == names[k];
        assert names[i] == names[k];
        return true;
      }
      seen := seen + {names[k]};
    }
    assert names[..|names|] == names;
    return false;
  }

  function KeyData(suite: Suite, t1: nat, t2: nat, barG1: nat, w: nat, barG2: nat): seq<byte> {
    var data := Zeros(KEY_DATA_SIZE);
    var data := Put(data, 0, suite.encodeG2(t1));
    var data := Put(data, G2_BYTES, suite.encodeG1(t2));
    var data := Put(data, G2_BYTES + G1_BYTES, suite.encodeG2(suite.g2));
    var data := Put(data, 2 * G2_BYTES + G1_BYTES, suite.encodeG1(barG1));
    var data := Put(data, 2 * G2_BYTES + 2 * G1_BYTES, suite.encodeG2(w));
    Put(data, 3 * G2_BYTES + 2 * G1_BYTES, suite.encodeG1(barG2))
  }

  method KeyChallenge(suite: Suite, t1: nat, t2: nat, barG1: nat, w: nat, barG2: nat) returns (c: nat)
    requires suite.Valid()
    ensures c == suite.HashModOrder(KeyData(suite, t1, t2, barG1, w, barG2))
  {
    var proofData := new byte[KEY_DATA_SIZE](_ => 0);
    assert proofData[..] == Zeros(KEY_DATA_SIZE);
    var index := AppendBytes(proofData, 0, suite.encodeG2(t1));
    index := AppendBytes(proofData, index, suite.encodeG1(t2));
    index := AppendBytes(proofData, index, suite.encodeG2(suite.g2));
    index := AppendBytes(proofData, index, suite.encodeG1(barG1));
    index := AppendBytes(proofData, index, suite.encodeG2(w));
    index := AppendBytes(proofData, index, suite.encodeG1(barG2));
    c := suite.HashModOrder(proofData[..]);
  }

  /** The key hash, taken over the serialized key without its hash. */
  function KeyHash(suite: Suite, marshal: IssuerPublicKey -> seq<byte>, ipk: IssuerPublicKey): seq<byte>
    requires suite.q > 0
  {
    suite.encodeBig(suite.HashModOrder(marshal(ipk.(hash := []))))
  }

  function Bases(suite: Suite, exponents: seq<nat>): (r: seq<nat>)
    requires suite.q > 0
    ensures |r| == |exponents|
  {
    seq(|exponents|, i requires 0 <= i < |exponents| => Mod(suite.g1 * exponents[i], suite.q))
  }

  ghost function Generate(suite: Suite, marshal: IssuerPublicKey -> seq<byte>, names: seq<string>, rnd: KeyRandomness)
    : KeyOutcome<IssuerKey>
    requires suite.Valid() && |rnd.attrs| == |names|
  {
    if !Distinct(names) then DuplicateAttribute else
    var q := suite.q;
    var w := Mod(suite.g2 * rnd.isk, q);
    var barG1 := Mod(suite.g1 * rnd.bar, q);
    var barG2 := Mod(barG1 * rnd.isk, q);
    var c := suite.HashModOrder(KeyData(suite, Mod(suite.g2 * rnd.r, q), Mod(barG1 * rnd.r, q), barG1, w, barG2));
    var ipk := IssuerPublicKey(names, Mod(suite.g1 * rnd.sk, q), Mod(suite.g1 * rnd.rand, q), Bases(suite, rnd.attrs),
                               w, barG1, barG2, c, Mod(c * rnd.isk + rnd.r, q), []);
    KeyOk(IssuerKey(rnd.isk, ipk.(hash := KeyHash(suite, marshal, ipk))))
  }

  method NewIssuerKey(suite: Suite, marshal: IssuerPublicKey -> seq<byte>, names: seq<string>, rnd: KeyRandomness)
    returns (key: KeyOutcome<IssuerKey>)
    requires suite.Valid() && |rnd.attrs| == |names|
    ensures key == Generate(suite, marshal, names, rnd)
  {
    hide Mod;
    var dup := HasDuplicates(names);
    if dup {
      return DuplicateAttribute;
    }
    var q := suite.q;
    var w := Mod(suite.g2 * rnd.isk, q);
    var hAttrs: seq<nat> := [];
    for i := 0 to |names|
      invariant |hAttrs| == i
      invariant forall k :: 0 <= k < i ==> hAttrs[k] == Mod(suite.g1 * rnd.attrs[k], q)
    {
      hAttrs := hAttrs + [Mod(suite.g1 * rnd.attrs[i], q)];
    }
    assert hAttrs == Bases(suite, rnd.attrs);
    var hSk := Mod(suite.g1 * rnd.sk, q);
    var hRand := Mod(suite.g1 * rnd.rand, q);
    var barG1 := Mod(suite.g1 * rnd.bar, q);
    var barG2 := Mod(barG1 * rnd.isk, q);
    var c := KeyChallenge(suite, Mod(suite.g2 * rnd.r, q), Mod(barG1 * rnd.r, q), barG1, w, barG2);
    AddUnreduced(q, rnd.r, c * rnd.isk);
    var s := Mod(Mod(c * rnd.isk, q) + rnd.r, q);
    var ipk := IssuerPublicKey(names, hSk, hRand, hAttrs, w, barG1, barG2, c, s, []);
    key := KeyOk(IssuerKey(rnd.isk, ipk.(hash := KeyHash(suite, marshal, ipk))));
  }

  /** The key check, which returns the key with its hash set again. */
  function KeyVerdict(suite: Suite, marshal: IssuerPublicKey -> seq<byte>, ipk: IssuerPublicKey): KeyOutcome<IssuerPublicKey>
    requires suite.Valid()
  {
    if Same(suite.q, ipk.barG1, 0) || |ipk.hAttrs| < |ipk.attributeNames| then KeyUndefined
    else
      var t1 := RecoveredT(suite, suite.g2, ipk.w, ipk.proofC, ipk.proofS);
      var t2 := RecoveredT(suite, ipk.barG1, ipk.barG2, ipk.proofC, ipk.proofS);
      if ipk.proofC == suite.HashModOrder(KeyData(suite, t1, t2, ipk.barG1, ipk.w, ipk.barG2))
      then KeyOk(ipk.(hash := KeyHash(suite, marshal, ipk))) else KeyProofInvalid
  }

  /** The concatenation that the buffer holds. */
  lemma KeyLayout(suite: Suite, t1: nat, t2: nat, barG1: nat, w: nat, barG2: nat)
    requires suite.Valid()
    ensures KeyData(suite, t1, t2, barG1, w, barG2)
            == suite.encodeG2(t1) + suite.encodeG1(t2) + suite.encodeG2(suite.g2)
               + suite.encodeG1(barG1) + suite.encodeG2(w) + suite.encodeG1(barG2)
  {
    hide Put, Partial, Zeros;
    var n := KEY_DATA_SIZE;
    var s1 := suite.encodeG2(t1);
    var s2 := s1 + suite.encodeG1(t2);
    var s3 := s2 + suite.encodeG2(suite.g2);
    var s4 := s3 + suite.encodeG1(barG1);
    var s5 := s4 + suite.encodeG2(w);
    EmptyBuffer(n);
    PutExtends([], n, s1);
    assert [] + s1 == s1;
    PutExtends(s1, n, suite.encodeG1(t2));
    PutExtends(s2, n, suite.encodeG2(suite.g2));
    PutExtends(s3, n, suite.encodeG1(barG1));
    PutExtends(s4, n, suite.encodeG2(w));
    PutFits(s5, n, suite.encodeG1(barG2));
  }

  /** Equal buffers bind both commitments and the points of the key. */
  lemma KeyDataBinds(suite: Suite, t1: nat, t2: nat, barG1: nat, w: nat, barG2: nat,
                     t1': nat, t2': nat, barG1': nat, w': nat, barG2': nat)
    requires suite.Valid() && suite.Injective()
    requires t1 < suite.q && t2 < suite.q && barG1 < suite.q && w < suite.q && barG2 < suite.q
    requires t1' < suite.q && t2' < suite.q && barG1' < suite.q && w' < suite.q && barG2' < suite.q
    requires KeyData(suite, t1, t2, barG1, w, barG2) == KeyData(suite, t1', t2', barG1', w', barG2')
    ensures t1 == t1' && t2 == t2' && barG1 == barG1' && w == w' && barG2 == barG2'
  {
    KeyLayout(suite, t1, t2, barG1, w, barG2);
    KeyLayout(suite, t1', t2', barG1', w', barG2');
    hide KeyData;
    var s2, s2' := suite.encodeG2(t1) + suite.encodeG1(t2), suite.encodeG2(t1') + suite.encodeG1(t2');
    var s3, s3' := s2 + suite.encodeG2(suite.g2), s2' + suite.encodeG2(suite.g2);
    var s4, s4' := s3 + suite.encodeG1(barG1), s3' + suite.encodeG1(barG1');
    SplitHead(s4 + suite.encodeG2(w), suite.encodeG1(barG2), s4' + suite.encodeG2(w'), suite.encodeG1(barG2'));
    SplitHead(s4, suite.encodeG2(w), s4', suite.encodeG2(w'));
    SplitHead(s3, suite.encodeG1(barG1), s3', suite.encodeG1(barG1'));
    SplitHead(s2, suite.encodeG2(suite.g2), s2', suite.encodeG2(suite.g2));
    SplitHead(suite.encodeG2(t1), suite.encodeG1(t2), suite.encodeG2(t1'), suite.encodeG1(t2'));
  }

  /**
   What the key check accepts: a second base that is not the identity, a base for every attribute, and a
   challenge that is the hash of both opened commitments and the points of the key. Nothing but the hash changes.
   */
  lemma KeyAcceptance(suite: Suite, marshal: IssuerPublicKey -> seq<byte>, ipk: IssuerPublicKey)
    requires suite.Valid()
    ensures KeyVerdict(suite, marshal, ipk).KeyOk? <==>
            && !Same(suite.q, ipk.barG1, 0) && |ipk.attributeNames| <= |ipk.hAttrs|
            && var t1 := Mod(suite.g2 * ipk.proofS - ipk.w * ipk.proofC, suite.q);
               var t2 := Mod(ipk.barG1 * ipk.proofS - ipk.barG2 * ipk.proofC, suite.q);
               ipk.proofC == Mod(suite.hash(suite.encodeG2(t1) + suite.encodeG1(t2) + suite.encodeG2(suite.g2)
                                            + suite.encodeG1(ipk.barG1) + suite.encodeG2(ipk.w) + suite.encodeG1(ipk.barG2)), suite.q)
    ensures KeyVerdict(suite, marshal, ipk).KeyOk? ==>
            KeyVerdict(suite, marshal, ipk).value
            == ipk.(hash := suite.encodeBig(Mod(suite.hash(marshal(ipk.(hash := []))), suite.q)))
    ensures KeyVerdict(suite, marshal, ipk).KeyUndefined? <==>
            Same(suite.q, ipk.barG1, 0) || |ipk.hAttrs| < |ipk.attributeNames|
  {
    hide Mod, Same, KeyData;
    var t1 := RecoveredT(suite, suite.g2, ipk.w, ipk.proofC, ipk.proofS);
    var t2 := RecoveredT(suite, ipk.barG1, ipk.barG2, ipk.proofC, ipk.proofS);
    KeyLayout(suite, t1, t2, ipk.barG1, ipk.w, ipk.barG2);
  }

  method CheckKey(suite: Suite, marshal: IssuerPublicKey -> seq<byte>, ipk: IssuerPublicKey)
    returns (r: KeyOutcome<IssuerPublicKey>)
    requires suite.Valid()
    ensures r == KeyVerdict(suite, marshal, ipk)
  {
    hide Mod;
    Canonical(suite.q, 0);
    if Mod(ipk.barG1, suite.q) == 0 || |ipk.hAttrs| < |ipk.attributeNames| {
      return KeyUndefined;
    }
    var t1 := AddNegated(suite.q, suite.g2, ipk.proofS, ipk.w, ipk.proofC);
    var t2 := AddNegated(suite.q, ipk.barG1, ipk.proofS, ipk.barG2, ipk.proofC);
    var c := KeyChallenge(suite, t1, t2, ipk.barG1, ipk.w, ipk.barG2);
    r := if ipk.proofC == c then KeyOk(ipk.(hash := KeyHash(suite, marshal, ipk))) else KeyProofInvalid;
  }

  /** `base.Mul(s)` plus `y.Mul(Modneg(c))` */
  method AddNegated(q: nat, base: nat, s: nat, y: nat, c: nat) returns (t: nat)
    requires q > 0
    ensures t == Mod(base * s - y * c, q)
  {
    var neg := q - Mod(c, q);
    NegatedScalar(q, y, c);
    AddReduced(q, base * s, y * neg);
    SumSame(q, base * s, base * s, y * neg, -(y * c));
    t := Mod(Mod(base * s, q) + Mod(y * neg, q), q);
  }

  lemma NegatedScalar(q: nat, y: int, c: int)
    requires q > 0
    ensures Same(q, y * (q - Mod(c, q)), -(y * c))
  {
    AddMultiple(q, q - Mod(c, q), -c, c / q + 1);
    ProductSame(q, y, y, q - Mod(c, q), -c);
    assert y * (-c) == -(y * c);
  }

  /** A generated key passes its check unchanged, exactly when its second base is not the identity. */
  lemma KeyCompleteness(suite: Suite, marshal: IssuerPublicKey -> seq<byte>, names: seq<string>, rnd: KeyRandomness)
    requires suite.Valid() && |rnd.attrs| == |names| && Distinct(names)
    ensures var key := Generate(suite, marshal, names, rnd).value;
            && KeyVerdict(suite, marshal, key.ipk)
               == (if Same(suite.q, rnd.bar, 0) then KeyUndefined else KeyOk(key.ipk))
            && Same(suite.q, key.ipk.w, suite.g2 * key.isk)
            && key.ipk.WellFormed() && key.ipk.attributeNames == names
  {
    hide Mod;
    var q := suite.q;
    var ipk := Generate(suite, marshal, names, rnd).value.ipk;
    Reduced(q, suite.g2 * rnd.isk);
    Reduced(q, ipk.barG1 * rnd.isk);
    Reduced(q, ipk.proofC * rnd.isk + rnd.r);
    SchnorrRecovers(q, suite.g2, rnd.isk, rnd.r, ipk.proofC, ipk.w, ipk.proofS);
    SchnorrRecovers(q, ipk.barG1, rnd.isk, rnd.r, ipk.proofC, ipk.barG2, ipk.proofS);
    GeneratorTimes(q, suite.g1, rnd.bar);
  }

  lemma GeneratorTimes(q: nat, g: nat, x: int)
    requires IsPrime(q) && 0 < g < q
    ensures Same(q, Mod(g * x, q), 0) <==> Same(q, x, 0)
  {
    Reduced(q, g * x);
    assert g * 0 == 0;
    Canonical(q, g);
    Canonical(q, 0);
    if Same(q, x, 0) {
      ProductSame(q, g, g, x, 0);
    }
    if Same(q, g * x, 0) {
      Cancel(q, g, x, 0);
    }
  }

  /**
   Two accepted keys that differ in their proofs only, with one pair of commitments and different challenges,
   determine one exponent that is behind both parts of the key. The challenges differ because the hash does.
   */
  lemma KeySpecialSoundness(suite: Suite, hash': seq<byte> -> nat, marshal: IssuerPublicKey -> seq<byte>,
                            ipk: IssuerPublicKey, c': nat, s': nat)
    requires suite.Valid() && ipk.proofC != c'
    requires KeyVerdict(suite, marshal, ipk).KeyOk? && KeyVerdict(suite.(hash := hash'), marshal, ipk.(proofC := c', proofS := s')).KeyOk?
    requires RecoveredT(suite, suite.g2, ipk.w, ipk.proofC, ipk.proofS) == RecoveredT(suite, suite.g2, ipk.w, c', s')
    requires RecoveredT(suite, ipk.barG1, ipk.barG2, ipk.proofC, ipk.proofS) == RecoveredT(suite, ipk.barG1, ipk.barG2, c', s')
    ensures !Same(suite.q, ipk.proofC - c', 0)
    ensures Same(suite.q, ipk.w, suite.g2 * Extracted(suite.q, ipk.proofC, c', ipk.proofS, s'))
    ensures Same(suite.q, ipk.barG2, ipk.barG1 * Extracted(suite.q, ipk.proofC, c', ipk.proofS, s'))
  {
    var c, s := ipk.proofC, ipk.proofS;
    assert c < suite.q && c' < suite.q;
    hide Mod, KeyVerdict;
    DistinctChallenges(suite.q, c, c');
    SchnorrExtraction(suite, suite.g2, ipk.w, c, s, c', s');
    SchnorrExtraction(suite, ipk.barG1, ipk.barG2, c, s, c', s');
  }

  /** From key generation through request and issuance to a signature that verifies; no step on the way fails. */
  lemma ProtocolCompleteness(suite: Suite, marshal: IssuerPublicKey -> seq<byte>, names: seq<string>, keyRnd: KeyRandomness,
                             sk: nat, nonce: seq<byte>, rReq: nat, attrs: seq<nat>, e: nat, s: nat,
                             rNym: nat, disclosure: seq<byte>, msg: seq<byte>, rhIndex: nat, rnd: Randomness)
    returns (key: IssuerKey, m: CredRequest, cred: Credential)
    requires suite.Valid() && |keyRnd.attrs| == |names| && Distinct(names)
    requires !NonceOverflows(nonce) && !Same(suite.q, keyRnd.isk + e, 0)
    requires |attrs| == |names| == |disclosure| && !Same(suite.q, rnd.r1, 0)
    requires rhIndex < |disclosure| && disclosure[rhIndex] == 0 && |rnd.rAttrs| == |Hidden(disclosure)|
    ensures Generate(suite, marshal, names, keyRnd) == KeyOk(key) && key.isk == keyRnd.isk && key.ipk.WellFormed()
    ensures Request(suite, sk, Some(nonce), key.ipk, rReq) == Ok(m)
    ensures Issue(suite, key.isk, key.ipk, m, attrs, e, s) == Ok(cred) && |key.ipk.attributeNames| == |cred.attrs|
    ensures var nym := Mod(key.ipk.hSk * sk + key.ipk.hRand * rNym, suite.q);
            var sig := Sign(suite, cred, sk, nym, rNym, key.ipk, disclosure, msg, rhIndex, NO_REVOCATION, rnd);
            sig.Ok? &&
            (Verdict(suite, sig.value, disclosure, key.ipk, msg, attrs, rhIndex).Ok? <==> !Same(suite.q, cred.b, 0))
  {
    hide Mod;
    KeyCompleteness(suite, marshal, names, keyRnd);
    key := Generate(suite, marshal, names, keyRnd).value;
    IssuedFromRequestVerifies(suite, key.isk, key.ipk, sk, nonce, rReq, attrs, e, s);
    m := Request(suite, sk, Some(nonce), key.ipk, rReq).value;
    cred := Issue(suite, key.isk, key.ipk, m, attrs, e, s).value;
    var nym := Mod(key.ipk.hSk * sk + key.ipk.hRand * rNym, suite.q);
    IssuedSigns(suite, key, sk, cred, nym, rNym, disclosure, msg, rhIndex, rnd);
  }

  lemma IssuedSigns(suite: Suite, key: IssuerKey, sk: nat, cred: Credential, nym: nat, rNym: nat,
                    disclosure: seq<byte>, msg: seq<byte>, rhIndex: nat, rnd: Randomness)
    requires suite.Valid() && key.ipk.WellFormed() && |cred.attrs| == |key.ipk.attributeNames| == |disclosure|
    requires Same(suite.q, key.ipk.w, suite.g2 * key.isk) && !Same(suite.q, key.isk + cred.e, 0)
    requires CredentialVerdict(suite, cred, sk, key.ipk).Ok? && !Same(suite.q, rnd.r1, 0)
    requires rhIndex < |disclosure| && disclosure[rhIndex] == 0 && |rnd.rAttrs| == |Hidden(disclosure)|
    requires nym == Mod(key.ipk.hSk * sk + key.ipk.hRand * rNym, suite.q)
    ensures var sig := Sign(suite, cred, sk, nym, rNym, key.ipk, disclosure, msg, rhIndex, NO_REVOCATION, rnd);
            sig.Ok? &&
            (Verdict(suite, sig.value, disclosure, key.ipk, msg, cred.attrs, rhIndex).Ok? <==> !Same(suite.q, cred.b, 0))
  {
    Reduced(suite.q, key.ipk.hSk * sk + key.ipk.hRand * rNym);
    assert !BadIndices(key.ipk, disclosure, rhIndex) && HandleLocated(disclosure, rhIndex);
    hide *;
    SignatureCompleteness(suite, cred, sk, nym, rNym, key.ipk, disclosure, msg, rhIndex, rnd, cred.attrs);
    DegenerateCredential(suite, key.isk, cred, sk, key.ipk);
  }
}

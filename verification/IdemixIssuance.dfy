/** Credential issuance: the request with its proof of knowledge, and the BBS+ credential. */
module IdemixIssuance {
  import opened Field
  import opened Transcript
  import opened IdemixSuite
  import opened Wrappers

  const REQUEST_LABEL: seq<byte> := [99, 114, 101, 100, 82, 101, 113, 117, 101, 115, 116]
  const REQUEST_SIZE: nat := 11 + 3 * G1_BYTES + 2 * FIELD_BYTES

  // -------------------------------------------------------------------------
  // The credential request
  // -------------------------------------------------------------------------

  /** The hash of the issuer key would be copied past the end of the buffer. */
  predicate NonceOverflows(nonce: seq<byte>) {
    |nonce| > 2 * FIELD_BYTES
  }

  function RequestData(suite: Suite, t: nat, hSk: nat, nym: nat, nonce: seq<byte>, ipkHash: seq<byte>): seq<byte>
    requires !NonceOverflows(nonce)
  {
    var data := Zeros(REQUEST_SIZE);
    var data := Put(data, 0, REQUEST_LABEL);
    var data := Put(data, 11, suite.encodeG1(t));
    var data := Put(data, 11 + G1_BYTES, suite.encodeG1(hSk));
    var data := Put(data, 11 + 2 * G1_BYTES, suite.encodeG1(nym));
    var data := Put(data, 11 + 3 * G1_BYTES, nonce);
    Put(data, 11 + 3 * G1_BYTES + |nonce|, ipkHash)
  }

  method RequestChallenge(suite: Suite, t: nat, hSk: nat, nym: nat, nonce: seq<byte>, ipkHash: seq<byte>)
    returns (c: nat)
    requires suite.Valid() && !NonceOverflows(nonce)
    ensures c == suite.HashModOrder(RequestData(suite, t, hSk, nym, nonce, ipkHash))
  {
    var proofData := new byte[REQUEST_SIZE](_ => 0);
    assert proofData[..] == Zeros(REQUEST_SIZE);
    var index := AppendBytes(proofData, 0, REQUEST_LABEL);
    index := AppendBytes(proofData, index, suite.encodeG1(t));
    index := AppendBytes(proofData, index, suite.encodeG1(hSk));
    index := AppendBytes(proofData, index, suite.encodeG1(nym));
    index := AppendBytes(proofData, index, nonce);
    index := AppendBytes(proofData, index, ipkHash);
    c := suite.HashModOrder(proofData[..]);
  }

  function NonceBytes(nonce: Option<seq<byte>>): seq<byte> {
    match nonce
    case None => []
    case Some(bytes) => bytes
  }

  /** The request that the user sends; r is the random exponent of the proof. */
  function Request(suite: Suite, sk: nat, nonce: Option<seq<byte>>, ipk: IssuerPublicKey, r: nat): Outcome<CredRequest>
    requires suite.Valid()
  {
    if NonceOverflows(NonceBytes(nonce)) then Panic else
    var nym := Mod(ipk.hSk * sk, suite.q);
    var t := Mod(ipk.hSk * r, suite.q);
    var c := suite.HashModOrder(RequestData(suite, t, ipk.hSk, nym, NonceBytes(nonce), ipk.hash));
    Ok(CredRequest(nym, nonce, c, Mod(c * sk + r, suite.q)))
  }

  method NewCredRequest(suite: Suite, sk: nat, nonce: Option<seq<byte>>, ipk: IssuerPublicKey, r: nat)
    returns (m: Outcome<CredRequest>)
    requires suite.Valid()
    ensures m == Request(suite, sk, nonce, ipk, r)
  {
    if NonceOverflows(NonceBytes(nonce)) {
      return Panic;
    }
    var nym := Mod(ipk.hSk * sk, suite.q);
    var t := Mod(ipk.hSk * r, suite.q);
    var proofC := RequestChallenge(suite, t, ipk.hSk, nym, NonceBytes(nonce), ipk.hash);
    AddUnreduced(suite.q, r, proofC * sk);
    var proofS := Mod(Mod(proofC * sk, suite.q) + r, suite.q);
    m := Ok(CredRequest(nym, nonce, proofC, proofS));
  }

  /** The commitment that the checker recovers from the challenge and the response. */
  function RecoveredT(suite: Suite, base: nat, nym: nat, c: nat, s: nat): nat
    requires suite.q > 0
  {
    Mod(base * s - nym * c, suite.q)
  }

  function RequestVerdict(suite: Suite, m: CredRequest, ipk: IssuerPublicKey): Outcome<()>
    requires suite.Valid()
  {
    if m.issuerNonce.None? then Err(Undefined)
    else if NonceOverflows(m.issuerNonce.value) then Panic
    else
      var t := RecoveredT(suite, ipk.hSk, m.nym, m.proofC, m.proofS);
      if m.proofC == suite.HashModOrder(RequestData(suite, t, ipk.hSk, m.nym, m.issuerNonce.value, ipk.hash))
      then Ok(()) else Err(ProofInvalid)
  }

  /** The concatenation that the buffer holds; the key hash takes what room the nonce leaves. */
  lemma RequestLayout(suite: Suite, t: nat, hSk: nat, nym: nat, nonce: seq<byte>, ipkHash: seq<byte>)
    requires suite.Valid() && |nonce| <= 64
    ensures RequestData(suite, t, hSk, nym, nonce, ipkHash)
            == [99, 114, 101, 100, 82, 101, 113, 117, 101, 115, 116] + suite.encodeG1(t) + suite.encodeG1(hSk)
               + suite.encodeG1(nym) + nonce + Fit(ipkHash, 64 - |nonce|)
  {
    hide Put, Partial, Fit, Zeros;
    var n := REQUEST_SIZE;
    var s0 := REQUEST_LABEL;
    var s1 := s0 + suite.encodeG1(t);
    var s2 := s1 + suite.encodeG1(hSk);
    var s3 := s2 + suite.encodeG1(nym);
    var s4 := s3 + nonce;
    EmptyBuffer(n);
    PutExtends([], n, s0);
    assert [] + s0 == s0;
    PutExtends(s0, n, suite.encodeG1(t));
    PutExtends(s1, n, suite.encodeG1(hSk));
    PutExtends(s2, n, suite.encodeG1(nym));
    PutExtends(s3, n, nonce);
    PutFits(s4, n, ipkHash);
  }

  /**
   Equal buffers bind the commitment, the base and the pseudonym. They bind nonce and key hash
   exactly when the nonces have one length: the buffer does not say where the nonce ends.
   */
  lemma RequestDataBinds(suite: Suite, t: nat, hSk: nat, nym: nat, nonce: seq<byte>, h: seq<byte>,
                         t': nat, hSk': nat, nym': nat, nonce': seq<byte>, h': seq<byte>)
    requires suite.Valid() && suite.Injective() && !NonceOverflows(nonce) && !NonceOverflows(nonce')
    requires t < suite.q && hSk < suite.q && nym < suite.q && t' < suite.q && hSk' < suite.q && nym' < suite.q
    requires RequestData(suite, t, hSk, nym, nonce, h) == RequestData(suite, t', hSk', nym', nonce', h')
    ensures t == t' && hSk == hSk' && nym == nym'
    ensures nonce + Fit(h, 64 - |nonce|) == nonce' + Fit(h', 64 - |nonce'|)
    ensures |nonce| == |nonce'| <==> nonce == nonce' && Fit(h, 64 - |nonce|) == Fit(h', 64 - |nonce'|)
    ensures |nonce| == |nonce'| && |h| == |h'| <= 64 - |nonce| ==> h == h'
  {
    hide Fit, RequestData;
    RequestLayout(suite, t, hSk, nym, nonce, h);
    RequestLayout(suite, t', hSk', nym', nonce', h');
    var f, f' := Fit(h, 64 - |nonce|), Fit(h', 64 - |nonce'|);
    ThreeItemsBind(REQUEST_LABEL, suite.encodeG1(t), suite.encodeG1(hSk), suite.encodeG1(nym), nonce, f,
                   suite.encodeG1(t'), suite.encodeG1(hSk'), suite.encodeG1(nym'), nonce', f');
    if |nonce| == |nonce'| {
      SplitHead(nonce, f, nonce', f');
      if |h| == |h'| <= 64 - |nonce| {
        FitBinds(h, h', 64 - |nonce|);
      }
    }
  }

  /** A byte can move from the key hash to the nonce: another nonce, another key hash, the same buffer. */
  lemma NonceShifts(suite: Suite, t: nat, hSk: nat, nym: nat, nonce: seq<byte>, h: seq<byte>)
    requires suite.Valid() && |nonce| < FIELD_BYTES && |h| == FIELD_BYTES
    ensures RequestData(suite, t, hSk, nym, nonce, h)
            == RequestData(suite, t, hSk, nym, nonce + [h[0]], h[1..] + [0])
  {
    RequestLayout(suite, t, hSk, nym, nonce, h);
    RequestLayout(suite, t, hSk, nym, nonce + [h[0]], h[1..] + [0]);
    hide *;
    var nonce', h' := nonce + [h[0]], h[1..] + [0];
    ShiftedField(nonce, h);
    var s: seq<byte> := [99, 114, 101, 100, 82, 101, 113, 117, 101, 115, 116] + suite.encodeG1(t) + suite.encodeG1(hSk)
                        + suite.encodeG1(nym);
    Reassociate(s, nonce, Fit(h, 64 - |nonce|), nonce', Fit(h', 64 - |nonce'|));
  }

  lemma ShiftedField(nonce: seq<byte>, h: seq<byte>)
    requires |nonce| < FIELD_BYTES && |h| == FIELD_BYTES
    ensures nonce + Fit(h, 64 - |nonce|) == (nonce + [h[0]]) + Fit(h[1..] + [0], 63 - |nonce|)
  {
  }

  lemma Reassociate(s: seq<byte>, a: seq<byte>, b: seq<byte>, a': seq<byte>, b': seq<byte>)
    requires a + b == a' + b'
    ensures s + a + b == s + a' + b'
  {
    assert s + a + b == s + (a + b) && s + a' + b' == s + (a' + b');
  }

  /**
   What the check accepts: a nonce that fits, and a challenge that is the hash of the commitment opened by
   the response, the base, the pseudonym, the nonce and the key hash.
   */
  lemma RequestAcceptance(suite: Suite, m: CredRequest, ipk: IssuerPublicKey)
    requires suite.Valid()
    ensures RequestVerdict(suite, m, ipk).Ok? <==>
            && m.issuerNonce.Some? && |m.issuerNonce.value| <= 64
            && var t := Mod(ipk.hSk * m.proofS - m.nym * m.proofC, suite.q);
               m.proofC == Mod(suite.hash(
                 [99, 114, 101, 100, 82, 101, 113, 117, 101, 115, 116] + suite.encodeG1(t) + suite.encodeG1(ipk.hSk)
                 + suite.encodeG1(m.nym) + m.issuerNonce.value + Fit(ipk.hash, 64 - |m.issuerNonce.value|)), suite.q)
    ensures RequestVerdict(suite, m, ipk) == Err(Undefined) <==> m.issuerNonce.None?
    ensures RequestVerdict(suite, m, ipk).Panic? <==> m.issuerNonce.Some? && |m.issuerNonce.value| > 64
    ensures RequestVerdict(suite, m, ipk).Err? ==> RequestVerdict(suite, m, ipk).error in {Undefined, ProofInvalid}
  {
    hide Mod, RequestData, Fit;
    if m.issuerNonce.Some? && |m.issuerNonce.value| <= 64 {
      var t := RecoveredT(suite, ipk.hSk, m.nym, m.proofC, m.proofS);
      RequestLayout(suite, t, ipk.hSk, m.nym, m.issuerNonce.value, ipk.hash);
    }
  }

  method Check(suite: Suite, m: CredRequest, ipk: IssuerPublicKey) returns (r: Outcome<()>)
    requires suite.Valid()
    ensures r == RequestVerdict(suite, m, ipk)
  {
    hide Mod;
    if m.issuerNonce.None? {
      return Err(Undefined);
    }
    if NonceOverflows(m.issuerNonce.value) {
      return Panic;
    }
    var t := Mod(ipk.hSk * m.proofS, suite.q);
    SubReduced(suite.q, ipk.hSk * m.proofS, m.nym * m.proofC);
    t := Mod(t - Mod(m.nym * m.proofC, suite.q), suite.q);
    var c := RequestChallenge(suite, t, ipk.hSk, m.nym, m.issuerNonce.value, ipk.hash);
    r := if m.proofC == c then Ok(()) else Err(ProofInvalid);
  }

  /** The Schnorr relation: from s = c*sk + r and nym = base*sk the commitment base*r comes back. */
  lemma SchnorrRecovers(q: nat, base: int, sk: int, r: int, c: int, nym: int, s: int)
    requires q > 0
    requires Same(q, nym, base * sk) && Same(q, s, c * sk + r)
    ensures Same(q, base * s - nym * c, base * r)
  {
    var k := Multiple(q, nym, base * sk);
    var l := Multiple(q, s, c * sk + r);
    SchnorrExpansion(q, base, sk, r, c, k, l);
    AddMultiple(q, base * s - nym * c, base * r, base * l - k * c);
  }

  lemma SchnorrExpansion(q: int, base: int, sk: int, r: int, c: int, k: int, l: int)
    ensures base * (c * sk + r + l * q) - (base * sk + k * q) * c == base * r + (base * l - k * c) * q
  {
    assert base * (c * sk + r + l * q) == base * (c * sk) + base * r + (base * l) * q;
    assert (base * sk + k * q) * c == (base * sk) * c + (k * c) * q;
    assert base * (c * sk) == (base * sk) * c;
  }

  /** A request made with a nonce is accepted, whatever the key, the secret and the randomness. */
  lemma RequestCompleteness(suite: Suite, sk: nat, nonce: Option<seq<byte>>, ipk: IssuerPublicKey, r: nat)
    requires suite.Valid() && !NonceOverflows(NonceBytes(nonce))
    ensures Request(suite, sk, nonce, ipk, r).Ok?
    ensures var m := Request(suite, sk, nonce, ipk, r).value;
            m.issuerNonce == nonce && Same(suite.q, m.nym, ipk.hSk * sk) && Same(suite.q, m.proofS, m.proofC * sk + r)
    ensures RequestVerdict(suite, Request(suite, sk, nonce, ipk, r).value, ipk) ==
            (if nonce.Some? then Ok(()) else Err(Undefined))
  {
    var m := Request(suite, sk, nonce, ipk, r).value;
    Reduced(suite.q, ipk.hSk * sk);
    Reduced(suite.q, m.proofC * sk + r);
    SchnorrRecovers(suite.q, ipk.hSk, sk, r, m.proofC, m.nym, m.proofS);
  }

  /** The exponent that two accepting answers to one commitment give away. */
  ghost function Extracted(q: nat, c: int, c': int, s: int, s': int): nat
    requires IsPrime(q) && !Same(q, c - c', 0)
  {
    Mod((s - s') * Inverse(q, c - c'), q)
  }

  lemma ExtractedScales(q: nat, c: int, c': int, s: int, s': int)
    requires IsPrime(q) && !Same(q, c - c', 0)
    ensures Same(q, (c - c') * Extracted(q, c, c', s, s'), s - s')
  {
    hide Mod;
    var d, i := c - c', Inverse(q, c - c');
    InverseInverts(q, d);
    Reduced(q, (s - s') * i);
    ProductSame(q, d, d, Extracted(q, c, c', s, s'), (s - s') * i);
    ProductSame(q, d * i, 1, s - s', s - s');
    assert d * ((s - s') * i) == (d * i) * (s - s');
  }

  /** Two answers that open one commitment under different challenges determine the exponent behind nym. */
  lemma SchnorrExtraction(suite: Suite, hSk: nat, nym: nat, c: nat, s: nat, c': nat, s': nat)
    requires suite.Valid()
    requires RecoveredT(suite, hSk, nym, c, s) == RecoveredT(suite, hSk, nym, c', s')
    requires !Same(suite.q, c - c', 0)
    ensures Same(suite.q, nym, hSk * Extracted(suite.q, c, c', s, s'))
  {
    hide Mod;
    var q, d, sk := suite.q, c - c', Extracted(suite.q, c, c', s, s');
    ExtractedScales(q, c, c', s, s');
    ProductSame(q, hSk, hSk, d * sk, s - s');
    SumSame(q, hSk * s - nym * c, hSk * s' - nym * c', nym * c - hSk * s', nym * c - hSk * s');
    assert (hSk * s - nym * c) + (nym * c - hSk * s') == hSk * (s - s');
    assert (hSk * s' - nym * c') + (nym * c - hSk * s') == d * nym;
    assert hSk * (d * sk) == d * (hSk * sk);
    Cancel(q, d, nym, hSk * sk);
  }

  /** Different challenges below the group order differ modulo the order. */
  lemma DistinctChallenges(q: nat, c: nat, c': nat)
    requires c < q && c' < q && c != c'
    ensures !Same(q, c - c', 0)
  {
    if Same(q, c - c', 0) {
      SumSame(q, c - c', 0, c', c');
      Canonical(q, c);
      Canonical(q, c');
    }
  }

  /**
   Two accepted requests for one pseudonym, under any hash, with one commitment and different challenges,
   determine the secret key behind the pseudonym.
   */
  lemma RequestSpecialSoundness(suite: Suite, hash': seq<byte> -> nat, m: CredRequest, m': CredRequest, ipk: IssuerPublicKey)
    requires suite.Valid() && m.nym == m'.nym && m.proofC != m'.proofC
    requires RequestVerdict(suite, m, ipk).Ok? && RequestVerdict(suite.(hash := hash'), m', ipk).Ok?
    requires RecoveredT(suite, ipk.hSk, m.nym, m.proofC, m.proofS) == RecoveredT(suite, ipk.hSk, m.nym, m'.proofC, m'.proofS)
    ensures !Same(suite.q, m.proofC - m'.proofC, 0)
    ensures Same(suite.q, m.nym, ipk.hSk * Extracted(suite.q, m.proofC, m'.proofC, m.proofS, m'.proofS))
  {
    assert m.proofC < suite.q && m'.proofC < suite.q;
    hide Mod, RequestVerdict;
    DistinctChallenges(suite.q, m.proofC, m'.proofC);
    SchnorrExtraction(suite, ipk.hSk, m.nym, m.proofC, m.proofS, m'.proofC, m'.proofS);
  }

  // -------------------------------------------------------------------------
  // The credential
  // -------------------------------------------------------------------------

  /** The point that a BBS+ credential signs, for a commitment to the secret key and a list of attributes. */
  ghost function SignedPoint(suite: Suite, ipk: IssuerPublicKey, commitment: int, s: int, attrs: seq<nat>): int
    requires |attrs| <= |ipk.hAttrs|
  {
    suite.g1 + commitment + ipk.hRand * s + Dot(ipk.hAttrs[..|attrs|], attrs)
  }

  ghost function Issue(suite: Suite, isk: nat, ipk: IssuerPublicKey, m: CredRequest, attrs: seq<nat>, e: nat, s: nat)
    : Outcome<Credential>
    requires suite.Valid() && ipk.WellFormed()
    requires !Same(suite.q, isk + e, 0)
  {
    if !RequestVerdict(suite, m, ipk).Ok? then
      match RequestVerdict(suite, m, ipk) case Err(reason) => Err(reason) case _ => Panic
    else if |attrs| != |ipk.attributeNames| then Err(AttributeCount)
    else
      var b := Mod(SignedPoint(suite, ipk, m.nym, s, attrs), suite.q);
      Ok(Credential(Mod(b * Inverse(suite.q, isk + e), suite.q), b, e, s, attrs))
  }

  /** A credential is issued exactly for an accepted request with a value for every attribute, and carries them. */
  lemma IssueOutcome(suite: Suite, isk: nat, ipk: IssuerPublicKey, m: CredRequest, attrs: seq<nat>, e: nat, s: nat)
    requires suite.Valid() && ipk.WellFormed() && !Same(suite.q, isk + e, 0)
    ensures var issued := Issue(suite, isk, ipk, m, attrs, e, s);
            && (issued.Ok? <==> RequestVerdict(suite, m, ipk).Ok? && |attrs| == |ipk.attributeNames|)
            && (issued.Ok? ==> issued.value.e == e && issued.value.s == s && issued.value.attrs == attrs
                               && Same(suite.q, issued.value.b, SignedPoint(suite, ipk, m.nym, s, attrs))
                               && Same(suite.q, (isk + e) * issued.value.a, issued.value.b))
            && (issued == Err(AttributeCount) <==> RequestVerdict(suite, m, ipk).Ok? && |attrs| != |ipk.attributeNames|)
            && (issued == Err(Undefined) <==> m.issuerNonce.None?)
  {
    hide Mod;
    var q := suite.q;
    if RequestVerdict(suite, m, ipk).Ok? && |attrs| == |ipk.attributeNames| {
      var b := Mod(SignedPoint(suite, ipk, m.nym, s, attrs), q);
      Reduced(q, SignedPoint(suite, ipk, m.nym, s, attrs));
      RootRaises(q, isk + e, b);
    }
  }

  method NewCredential(suite: Suite, isk: nat, ipk: IssuerPublicKey, m: CredRequest, attrs: seq<nat>, e: nat, s: nat)
    returns (r: Outcome<Credential>)
    requires suite.Valid() && ipk.WellFormed()
    requires !Same(suite.q, isk + e, 0)
    ensures r == Issue(suite, isk, ipk, m, attrs, e, s)
  {
    hide Mod;
    var checked := Check(suite, m, ipk);
    match checked {
      case Ok(_) =>
      case Err(reason) => return Err(reason);
      case Panic => return Panic;
    }
    if |attrs| != |ipk.attributeNames| {
      return Err(AttributeCount);
    }
    var q := suite.q;
    var b := Mod(suite.g1 + m.nym, q);
    AddReduced(q, suite.g1 + m.nym, ipk.hRand * s);
    b := Mod(b + Mod(ipk.hRand * s, q), q);
    ghost var start := suite.g1 + m.nym + ipk.hRand * s;
    Reduced(q, start);
    SumSame(q, b, start, Dot(ipk.hAttrs[..|attrs|], attrs), Dot(ipk.hAttrs[..|attrs|], attrs));
    b := PairedSum(q, b, ipk.hAttrs[..|attrs|], attrs);
    Reduced(q, isk + e);
    var exp := Inverse(q, Mod(isk + e, q));
    r := Ok(Credential(Mod(b * exp, q), b, e, s, attrs));
  }

  ghost function CredentialVerdict(suite: Suite, cred: Credential, sk: nat, ipk: IssuerPublicKey): Outcome<()>
    requires suite.Valid() && |cred.attrs| <= |ipk.hAttrs|
  {
    if !Same(suite.q, cred.b, SignedPoint(suite, ipk, ipk.hSk * sk, cred.s, cred.attrs)) then Err(BValueMismatch)
    else if !Same(suite.q, (suite.g2 * cred.e + ipk.w) * cred.a, suite.g2 * cred.b) then Err(CredentialInvalid)
    else Ok(())
  }

  method VerifyCredential(suite: Suite, cred: Credential, sk: nat, ipk: IssuerPublicKey) returns (r: Outcome<()>)
    requires suite.Valid() && |cred.attrs| <= |ipk.hAttrs|
    ensures r == CredentialVerdict(suite, cred, sk, ipk)
  {
    var q := suite.q;
    var keys := Mod(ipk.hSk * sk + ipk.hRand * cred.s, q);
    ghost var start := suite.g1 + ipk.hSk * sk + ipk.hRand * cred.s;
    Reduced(q, ipk.hSk * sk + ipk.hRand * cred.s);
    SumSame(q, suite.g1, suite.g1, keys, ipk.hSk * sk + ipk.hRand * cred.s);
    var bPrime := Mod(suite.g1 + keys, q);
    Reduced(q, start);
    ghost var rest := Dot(ipk.hAttrs[..|cred.attrs|], cred.attrs);
    SumSame(q, bPrime, start, rest, rest);
    bPrime := PairedSum(q, bPrime, ipk.hAttrs[..|cred.attrs|], cred.attrs);
    if Mod(cred.b, q) != bPrime {
      return Err(BValueMismatch);
    }
    AddReduced(q, suite.g2 * cred.e, ipk.w);
    var a := Mod(Mod(suite.g2 * cred.e, q) + Mod(ipk.w, q), q);
    Reduced(q, suite.g2 * cred.e + ipk.w);
    ProductSame(q, a, suite.g2 * cred.e + ipk.w, cred.a, cred.a);
    var left := Mod(a * cred.a, q);
    var right := Mod(suite.g2 * cred.b, q);
    r := if left == right then Ok(()) else Err(CredentialInvalid);
  }

  /**
   What the credential check means: for an issuer key with w = g2^x it accepts exactly the BBS+ relation
   a^(x+e) = b over the recomputed point, so the check leaves no second value for the signature.
   */
  lemma CredentialAcceptance(suite: Suite, isk: nat, cred: Credential, sk: nat, ipk: IssuerPublicKey)
    requires suite.Valid() && |cred.attrs| <= |ipk.hAttrs|
    requires Same(suite.q, ipk.w, suite.g2 * isk)
    ensures CredentialVerdict(suite, cred, sk, ipk).Ok? <==>
            && Same(suite.q, cred.b, SignedPoint(suite, ipk, ipk.hSk * sk, cred.s, cred.attrs))
            && Same(suite.q, (isk + cred.e) * cred.a, cred.b)
  {
    PairingCancels(suite.q, suite.g2, ipk.w, isk, cred.e, cred.a, cred.b);
  }

  lemma PairingCancels(q: nat, g2: nat, w: int, x: int, e: int, a: int, b: int)
    requires IsPrime(q) && 0 < g2 < q && Same(q, w, g2 * x)
    ensures Same(q, (g2 * e + w) * a, g2 * b) <==> Same(q, (x + e) * a, b)
  {
    var y := (x + e) * a;
    PairingExpansion(q, g2, w, x, e, a);
    if Same(q, y, b) {
      ProductSame(q, g2, g2, y, b);
    }
    if Same(q, g2 * y, g2 * b) {
      Canonical(q, g2);
      Canonical(q, 0);
      Cancel(q, g2, y, b);
    }
  }

  lemma PairingExpansion(q: nat, g2: int, w: int, x: int, e: int, a: int)
    requires q > 0 && Same(q, w, g2 * x)
    ensures Same(q, (g2 * e + w) * a, g2 * ((x + e) * a))
  {
    SumSame(q, g2 * e, g2 * e, w, g2 * x);
    assert g2 * e + g2 * x == g2 * (x + e);
    ProductSame(q, g2 * e + w, g2 * (x + e), a, a);
    assert (g2 * (x + e)) * a == g2 * ((x + e) * a);
  }

  /** A credential issued on an accepted request for nym = h_sk^sk verifies, for any number of attributes. */
  lemma IssuanceCompleteness(suite: Suite, isk: nat, ipk: IssuerPublicKey, m: CredRequest, sk: nat,
                             attrs: seq<nat>, e: nat, s: nat)
    requires suite.Valid() && ipk.WellFormed()
    requires Same(suite.q, ipk.w, suite.g2 * isk) && !Same(suite.q, isk + e, 0)
    requires RequestVerdict(suite, m, ipk).Ok? && Same(suite.q, m.nym, ipk.hSk * sk)
    requires |attrs| == |ipk.attributeNames|
    ensures Issue(suite, isk, ipk, m, attrs, e, s).Ok?
    ensures CredentialVerdict(suite, Issue(suite, isk, ipk, m, attrs, e, s).value, sk, ipk).Ok?
  {
    hide Mod;
    var q := suite.q;
    var cred := Issue(suite, isk, ipk, m, attrs, e, s).value;
    var rest := suite.g1 + ipk.hRand * s + Dot(ipk.hAttrs[..|attrs|], attrs);
    Reduced(q, SignedPoint(suite, ipk, m.nym, s, attrs));
    SumSame(q, m.nym, ipk.hSk * sk, rest, rest);
    RootRaises(q, isk + e, cred.b);
    CredentialAcceptance(suite, isk, cred, sk, ipk);
  }

  lemma RootRaises(q: nat, x: int, b: int)
    requires IsPrime(q) && !Same(q, x, 0)
    ensures Same(q, x * Mod(b * Inverse(q, x), q), b)
  {
    var i := Inverse(q, x);
    InverseInverts(q, x);
    Reduced(q, b * i);
    ProductSame(q, x, x, Mod(b * i, q), b * i);
    assert x * (b * i) == (x * i) * b;
    ProductSame(q, x * i, 1, b, b);
  }

  /** The whole issuance: request, check, credential, verification by the user. */
  lemma IssuedFromRequestVerifies(suite: Suite, isk: nat, ipk: IssuerPublicKey, sk: nat, nonce: seq<byte>, r: nat,
                                  attrs: seq<nat>, e: nat, s: nat)
    requires suite.Valid() && ipk.WellFormed() && !NonceOverflows(nonce)
    requires Same(suite.q, ipk.w, suite.g2 * isk) && !Same(suite.q, isk + e, 0)
    requires |attrs| == |ipk.attributeNames|
    ensures Request(suite, sk, Some(nonce), ipk, r).Ok?
    ensures var m := Request(suite, sk, Some(nonce), ipk, r).value;
            var issued := Issue(suite, isk, ipk, m, attrs, e, s);
            issued.Ok? && CredentialVerdict(suite, issued.value, sk, ipk).Ok?
  {
    RequestCompleteness(suite, sk, Some(nonce), ipk, r);
    Reduced(suite.q, ipk.hSk * sk);
    IssuanceCompleteness(suite, isk, ipk, Request(suite, sk, Some(nonce), ipk, r).value, sk, attrs, e, s);
  }
}

/** Identity Mixer signatures: a proof of knowledge of a BBS+ credential with selective disclosure. */
module IdemixSignature {
  import opened Field
  import opened Transcript
  import opened IdemixSuite
  import opened IdemixIssuance

  const SIGN_LABEL: seq<byte> := [115, 105, 103, 110]
  const NO_REVOCATION: int := 0

  datatype Signature = Signature(
    aPrime: nat, aBar: nat, bPrime: nat,
    c: nat, sSk: nat, sE: nat, sR2: nat, sR3: nat, sSPrime: nat, sAttrs: seq<nat>,
    nonce: nat, nym: nat, sRNym: nat, revocationAlg: int)

  /** Every value that the signer draws at random. */
  datatype Randomness = Randomness(
    r1: nat, r2: nat, nonce: nat,
    rSk: nat, rE: nat, rR2: nat, rR3: nat, rSPrime: nat, rRNym: nat, rAttrs: seq<nat>)

  // -------------------------------------------------------------------------
  // Disclosure
  // -------------------------------------------------------------------------

  /** The indices that stay hidden, in increasing order. */
  function Hidden(disclosure: seq<byte>): (h: seq<nat>)
    ensures |h| <= |disclosure|
    ensures forall k :: 0 <= k < |h| ==> h[k] < |disclosure|
  {
    if disclosure == [] then [] else
    var n := |disclosure| - 1;
    Hidden(disclosure[..n]) + if disclosure[n] == 0 then [n] else []
  }

  method HiddenIndices(disclosure: seq<byte>) returns (h: seq<nat>)
    ensures h == Hidden(disclosure)
  {
    h := [];
    for i := 0 to |disclosure|
      invariant h == Hidden(disclosure[..i])
    {
      assert disclosure[..i + 1][..i] == disclosure[..i];
      if disclosure[i] == 0 {
        h := h + [i];
      }
    }
    assert disclosure[..|disclosure|] == disclosure;
  }

  /** `sort.SearchInts`: the position at which x belongs in an increasing list. */
  function SearchInts(a: seq<nat>, x: nat): (i: nat)
    ensures i <= |a|
    ensures i < |a| ==> a[i] >= x
    ensures i == |a| ==> forall k :: 0 <= k < |a| ==> a[k] < x
  {
    if a == [] || a[0] >= x then 0 else 1 + SearchInts(a[1..], x)
  }

  /** Some attribute at or after the revocation handle stays hidden. */
  predicate HandleLocated(disclosure: seq<byte>, rhIndex: nat) {
    exists j :: rhIndex <= j < |disclosure| && disclosure[j] == 0
  }

  lemma {:induction false} HiddenExactly(disclosure: seq<byte>, j: nat)
    ensures j in Hidden(disclosure) <==> j < |disclosure| && disclosure[j] == 0
  {
    if disclosure != [] {
      HiddenExactly(disclosure[..|disclosure| - 1], j);
    }
  }

  /** The lookup of the handle's randomness stays in range exactly when the handle is located. */
  lemma SearchStaysInRange(disclosure: seq<byte>, rhIndex: nat)
    ensures SearchInts(Hidden(disclosure), rhIndex) < |Hidden(disclosure)| <==> HandleLocated(disclosure, rhIndex)
  {
    var h := Hidden(disclosure);
    var i := SearchInts(h, rhIndex);
    if i < |h| {
      HiddenExactly(disclosure, h[i]);
    }
    if HandleLocated(disclosure, rhIndex) {
      var j :| rhIndex <= j < |disclosure| && disclosure[j] == 0;
      HiddenExactly(disclosure, j);
    }
  }

  function Select(xs: seq<nat>, indices: seq<nat>): (r: seq<nat>)
    requires forall k :: 0 <= k < |indices| ==> indices[k] < |xs|
    ensures |r| == |indices|
  {
    seq(|indices|, k requires 0 <= k < |indices| => xs[indices[k]])
  }

  /** There is a value for every disclosed attribute. */
  predicate Covers(disclosure: seq<byte>, values: seq<nat>) {
    forall i :: 0 <= i < |disclosure| && disclosure[i] != 0 ==> i < |values|
  }

  /** The part of the attribute product that the verifier can compute from disclosed values. */
  ghost function DisclosedDot(disclosure: seq<byte>, bases: seq<nat>, values: seq<nat>): int
    requires |disclosure| <= |bases| && Covers(disclosure, values)
  {
    if disclosure == [] then 0 else
    var n := |disclosure| - 1;
    DisclosedDot(disclosure[..n], bases, values) + if disclosure[n] != 0 then bases[n] * values[n] else 0
  }

  /** Hidden and disclosed attributes together are all the attributes. */
  lemma {:induction false} HiddenPlusDisclosed(disclosure: seq<byte>, bases: seq<nat>, values: seq<nat>)
    requires |disclosure| <= |bases| && |disclosure| <= |values|
    ensures Dot(Select(bases, Hidden(disclosure)), Select(values, Hidden(disclosure)))
            + DisclosedDot(disclosure, bases, values)
            == Dot(bases[..|disclosure|], values[..|disclosure|])
  {
    if disclosure != [] {
      var n := |disclosure| - 1;
      var h := Hidden(disclosure[..n]);
      HiddenPlusDisclosed(disclosure[..n], bases, values);
      DotStep(bases, values, n);
      if disclosure[n] == 0 {
        var xs, ys := Select(bases, h + [n]), Select(values, h + [n]);
        assert xs[..|h|] == Select(bases, h) && ys[..|h|] == Select(values, h);
      } else {
        assert Hidden(disclosure) == h;
      }
    }
  }

  lemma {:induction false} DisclosedAgree(disclosure: seq<byte>, bases: seq<nat>, values: seq<nat>, values': seq<nat>)
    requires |disclosure| <= |bases| && Covers(disclosure, values) && Covers(disclosure, values')
    requires forall i :: 0 <= i < |disclosure| && disclosure[i] != 0 ==> values[i] == values'[i]
    ensures DisclosedDot(disclosure, bases, values) == DisclosedDot(disclosure, bases, values')
  {
    if disclosure != [] {
      DisclosedAgree(disclosure[..|disclosure| - 1], bases, values, values');
    }
  }

  // -------------------------------------------------------------------------
  // The Fiat-Shamir challenge
  // -------------------------------------------------------------------------

  datatype Points = Points(t1: nat, t2: nat, t3: nat, aPrime: nat, aBar: nat, bPrime: nat, nym: nat) {
    predicate Within(q: nat) {
      t1 < q && t2 < q && t3 < q && aPrime < q && aBar < q && bPrime < q && nym < q
    }
  }

  function SignSize(disclosure: seq<byte>, msg: seq<byte>): nat {
    4 + 7 * G1_BYTES + FIELD_BYTES + |disclosure| + |msg|
  }

  function SignData(suite: Suite, p: Points, ipkHash: seq<byte>, disclosure: seq<byte>, msg: seq<byte>): (r: seq<byte>)
    ensures |r| == SignSize(disclosure, msg)
  {
    var data := Zeros(SignSize(disclosure, msg));
    var data := Put(data, 0, SIGN_LABEL);
    var data := Put(data, 4, suite.encodeG1(p.t1));
    var data := Put(data, 4 + G1_BYTES, suite.encodeG1(p.t2));
    var data := Put(data, 4 + 2 * G1_BYTES, suite.encodeG1(p.t3));
    var data := Put(data, 4 + 3 * G1_BYTES, suite.encodeG1(p.aPrime));
    var data := Put(data, 4 + 4 * G1_BYTES, suite.encodeG1(p.aBar));
    var data := Put(data, 4 + 5 * G1_BYTES, suite.encodeG1(p.bPrime));
    var data := Put(data, 4 + 6 * G1_BYTES, suite.encodeG1(p.nym));
    var data := Put(data, 4 + 7 * G1_BYTES, ipkHash);
    var data := Put(data, 4 + 7 * G1_BYTES + FIELD_BYTES, disclosure);
    Put(data, 4 + 7 * G1_BYTES + FIELD_BYTES + |disclosure|, msg)
  }

  /** The first hash is hashed again together with the nonce. */
  function Challenge(suite: Suite, data: seq<byte>, nonce: nat): nat
    requires suite.q > 0
  {
    suite.HashModOrder(suite.encodeBig(suite.HashModOrder(data)) + suite.encodeBig(nonce))
  }

  method SignChallenge(suite: Suite, p: Points, ipkHash: seq<byte>, disclosure: seq<byte>, msg: seq<byte>, nonce: nat)
    returns (c: nat)
    requires suite.Valid()
    ensures c == Challenge(suite, SignData(suite, p, ipkHash, disclosure, msg), nonce)
  {
    var proofData := new byte[SignSize(disclosure, msg)](_ => 0);
    assert proofData[..] == Zeros(SignSize(disclosure, msg));
    var index := AppendBytes(proofData, 0, SIGN_LABEL);
    index := AppendBytes(proofData, index, suite.encodeG1(p.t1));
    index := AppendBytes(proofData, index, suite.encodeG1(p.t2));
    index := AppendBytes(proofData, index, suite.encodeG1(p.t3));
    index := AppendBytes(proofData, index, suite.encodeG1(p.aPrime));
    index := AppendBytes(proofData, index, suite.encodeG1(p.aBar));
    index := AppendBytes(proofData, index, suite.encodeG1(p.bPrime));
    index := AppendBytes(proofData, index, suite.encodeG1(p.nym));
    var _ := AppendBytes(proofData, index, ipkHash);
    index := index + FIELD_BYTES;
    index := AppendBytes(proofData, index, disclosure);
    index := AppendBytes(proofData, index, msg);
    var first := suite.HashModOrder(proofData[..]);
    c := SecondHash(suite, proofData, first, nonce);
  }

  /** Overwrites the start of the buffer with the first hash and the nonce, and hashes that part. */
  method SecondHash(suite: Suite, proofData: array<byte>, first: nat, nonce: nat) returns (c: nat)
    requires suite.Valid() && 2 * FIELD_BYTES <= proofData.Length
    modifies proofData
    ensures c == suite.HashModOrder(suite.encodeBig(first) + suite.encodeBig(nonce))
  {
    var index := AppendBytes(proofData, 0, suite.encodeBig(first));
    index := AppendBytes(proofData, index, suite.encodeBig(nonce));
    assert proofData[..2 * FIELD_BYTES] == suite.encodeBig(first) + suite.encodeBig(nonce);
    c := suite.HashModOrder(proofData[..2 * FIELD_BYTES]);
  }

  /** The seven points, one after the other behind the label. */
  ghost function PointBytes(suite: Suite, p: Points): seq<byte> {
    SIGN_LABEL + suite.encodeG1(p.t1) + suite.encodeG1(p.t2) + suite.encodeG1(p.t3)
    + suite.encodeG1(p.aPrime) + suite.encodeG1(p.aBar) + suite.encodeG1(p.bPrime) + suite.encodeG1(p.nym)
  }

  lemma PointLayout(suite: Suite, p: Points, n: nat)
    requires suite.Valid() && n >= 4 + 7 * G1_BYTES
    ensures |PointBytes(suite, p)| == 4 + 7 * G1_BYTES
    ensures
      var data := Put(Zeros(n), 0, SIGN_LABEL);
      var data := Put(data, 4, suite.encodeG1(p.t1));
      var data := Put(data, 4 + G1_BYTES, suite.encodeG1(p.t2));
      var data := Put(data, 4 + 2 * G1_BYTES, suite.encodeG1(p.t3));
      var data := Put(data, 4 + 3 * G1_BYTES, suite.encodeG1(p.aPrime));
      var data := Put(data, 4 + 4 * G1_BYTES, suite.encodeG1(p.aBar));
      var data := Put(data, 4 + 5 * G1_BYTES, suite.encodeG1(p.bPrime));
      Put(data, 4 + 6 * G1_BYTES, suite.encodeG1(p.nym)) == Partial(PointBytes(suite, p), n)
  {
    var s0 := SIGN_LABEL;
    var s1 := s0 + suite.encodeG1(p.t1);
    var s2 := s1 + suite.encodeG1(p.t2);
    var s3 := s2 + suite.encodeG1(p.t3);
    var s4 := s3 + suite.encodeG1(p.aPrime);
    var s5 := s4 + suite.encodeG1(p.aBar);
    var s6 := s5 + suite.encodeG1(p.bPrime);
    assert Zeros(n) == Partial([], n);
    PutExtends([], n, SIGN_LABEL);
    assert [] + SIGN_LABEL == s0;
    PutExtends(s0, n, suite.encodeG1(p.t1));
    PutExtends(s1, n, suite.encodeG1(p.t2));
    PutExtends(s2, n, suite.encodeG1(p.t3));
    PutExtends(s3, n, suite.encodeG1(p.aPrime));
    PutExtends(s4, n, suite.encodeG1(p.aBar));
    PutExtends(s5, n, suite.encodeG1(p.bPrime));
    PutExtends(s6, n, suite.encodeG1(p.nym));
  }

  /** The concatenation that the buffer holds; the issuer key hash has a field of fixed length in it. */
  lemma SignLayout(suite: Suite, p: Points, ipkHash: seq<byte>, disclosure: seq<byte>, msg: seq<byte>)
    requires suite.Valid()
    ensures SignData(suite, p, ipkHash, disclosure, msg)
            == PointBytes(suite, p) + Fit(ipkHash, FIELD_BYTES) + disclosure + msg
  {
    hide Put, Fit, Partial, Zeros, PointBytes;
    var n := SignSize(disclosure, msg);
    PointLayout(suite, p, n);
    FieldLayout(PointBytes(suite, p), n, ipkHash, FIELD_BYTES, disclosure, msg);
  }

  lemma PointBytesBind(suite: Suite, p: Points, p': Points)
    requires suite.Valid() && suite.Injective() && p.Within(suite.q) && p'.Within(suite.q)
    requires PointBytes(suite, p) == PointBytes(suite, p')
    ensures p == p'
  {
    var s1, s1' := SIGN_LABEL + suite.encodeG1(p.t1), SIGN_LABEL + suite.encodeG1(p'.t1);
    var s2, s2' := s1 + suite.encodeG1(p.t2), s1' + suite.encodeG1(p'.t2);
    var s3, s3' := s2 + suite.encodeG1(p.t3), s2' + suite.encodeG1(p'.t3);
    var s4, s4' := s3 + suite.encodeG1(p.aPrime), s3' + suite.encodeG1(p'.aPrime);
    var s5, s5' := s4 + suite.encodeG1(p.aBar), s4' + suite.encodeG1(p'.aBar);
    var s6, s6' := s5 + suite.encodeG1(p.bPrime), s5' + suite.encodeG1(p'.bPrime);
    SplitHead(s6, suite.encodeG1(p.nym), s6', suite.encodeG1(p'.nym));
    SplitHead(s5, suite.encodeG1(p.bPrime), s5', suite.encodeG1(p'.bPrime));
    SplitHead(s4, suite.encodeG1(p.aBar), s4', suite.encodeG1(p'.aBar));
    SplitHead(s3, suite.encodeG1(p.aPrime), s3', suite.encodeG1(p'.aPrime));
    SplitHead(s2, suite.encodeG1(p.t3), s2', suite.encodeG1(p'.t3));
    SplitHead(s1, suite.encodeG1(p.t2), s1', suite.encodeG1(p'.t2));
    SplitHead(SIGN_LABEL, suite.encodeG1(p.t1), SIGN_LABEL, suite.encodeG1(p'.t1));
  }

  /** Equal buffers bind every proof element, the issuer key, the disclosure and the message. */
  lemma SignDataBinds(suite: Suite, p: Points, h: seq<byte>, d: seq<byte>, msg: seq<byte>,
                      p': Points, h': seq<byte>, d': seq<byte>, msg': seq<byte>)
    requires suite.Valid() && suite.Injective() && p.Within(suite.q) && p'.Within(suite.q)
    requires |h| == |h'| == FIELD_BYTES && |d| == |d'|
    requires SignData(suite, p, h, d, msg) == SignData(suite, p', h', d', msg')
    ensures p == p' && h == h' && d == d' && msg == msg'
  {
    SignLayout(suite, p, h, d, msg);
    SignLayout(suite, p', h', d', msg');
    var s, s' := PointBytes(suite, p), PointBytes(suite, p');
    PointLayout(suite, p, SignSize(d, msg));
    PointLayout(suite, p', SignSize(d', msg'));
    SplitHead(s + h + d, msg, s' + h' + d', msg');
    SplitHead(s + h, d, s' + h', d');
    SplitHead(s, h, s', h');
    PointBytesBind(suite, p, p');
  }

  // -------------------------------------------------------------------------
  // Signing
  // -------------------------------------------------------------------------

  predicate BadIndices(ipk: IssuerPublicKey, disclosure: seq<byte>, rhIndex: int) {
    rhIndex < 0 || rhIndex >= |ipk.attributeNames| || |disclosure| != |ipk.attributeNames|
  }

  /** The randomized credential and the commitments of the proof. */
  ghost function Commit(suite: Suite, cred: Credential, nym: nat, ipk: IssuerPublicKey, disclosure: seq<byte>, rnd: Randomness)
    : Points
    requires suite.Valid() && |disclosure| <= |ipk.hAttrs| && |rnd.rAttrs| == |Hidden(disclosure)|
  {
    var q := suite.q;
    var aPrime := Mod(cred.a * rnd.r1, q);
    var bPrime := Mod(cred.b * rnd.r1 - ipk.hRand * rnd.r2, q);
    Points(
      Mod(aPrime * rnd.rE + ipk.hRand * rnd.rR2, q),
      Mod(ipk.hRand * rnd.rSPrime + bPrime * rnd.rR3 + ipk.hSk * rnd.rSk
       + Dot(Select(ipk.hAttrs, Hidden(disclosure)), rnd.rAttrs), q),
      Mod(ipk.hSk * rnd.rSk + ipk.hRand * rnd.rRNym, q),
      aPrime,
      Mod(cred.b * rnd.r1 - aPrime * cred.e, q),
      bPrime,
      nym)
  }

  function Respond(q: nat, r: nat, c: nat, x: nat): nat
    requires q > 0
  {
    Mod(r + c * x, q)
  }

  function RespondAll(q: nat, r: seq<nat>, c: nat, x: seq<nat>): (s: seq<nat>)
    requires q > 0 && |r| == |x|
    ensures |s| == |r|
  {
    seq(|r|, i requires 0 <= i < |r| => Respond(q, r[i], c, x[i]))
  }

  ghost function Sign(suite: Suite, cred: Credential, sk: nat, nym: nat, rNym: nat, ipk: IssuerPublicKey,
                      disclosure: seq<byte>, msg: seq<byte>, rhIndex: int, revocationAlg: int, rnd: Randomness)
    : Outcome<Signature>
    requires suite.Valid() && ipk.WellFormed() && |ipk.attributeNames| <= |cred.attrs|
    requires |rnd.rAttrs| == |Hidden(disclosure)| && !Same(suite.q, rnd.r1, 0)
  {
    var q := suite.q;
    if BadIndices(ipk, disclosure, rhIndex) then Err(InvalidInput)
    else if revocationAlg != NO_REVOCATION && disclosure[rhIndex] == 1 then Err(HandleDisclosed)
    else if revocationAlg != NO_REVOCATION then Err(UnknownRevocationAlgorithm)
    else if !HandleLocated(disclosure, rhIndex) then Panic
    else
      var p := Commit(suite, cred, nym, ipk, disclosure, rnd);
      var c := Challenge(suite, SignData(suite, p, ipk.hash, disclosure, msg), rnd.nonce);
      Ok(Answer(q, p, c, cred, sk, rNym, Hidden(disclosure), rnd))
  }

  /** The signature: the randomized credential, the challenge and a response for every secret. */
  function Answer(q: nat, p: Points, c: nat, cred: Credential, sk: nat, rNym: nat, hidden: seq<nat>, rnd: Randomness): Signature
    requires q > 1 && !Same(q, rnd.r1, 0)
    requires |rnd.rAttrs| == |hidden| && forall k :: 0 <= k < |hidden| ==> hidden[k] < |cred.attrs|
  {
    var r3 := Inverse(q, rnd.r1);
    Signature(
      p.aPrime, p.aBar, p.bPrime, c,
      Respond(q, rnd.rSk, c, sk),
      Mod(rnd.rE - c * cred.e, q),
      Respond(q, rnd.rR2, c, rnd.r2),
      Mod(rnd.rR3 - c * r3, q),
      Mod(rnd.rSPrime + c * (cred.s - rnd.r2 * r3), q),
      RespondAll(q, rnd.rAttrs, c, Select(cred.attrs, hidden)),
      rnd.nonce, p.nym,
      Respond(q, rnd.rRNym, c, rNym),
      NO_REVOCATION)
  }

  /** When there is a signature, and what it carries; every refusal names a cause that is there. */
  lemma SignOutcome(suite: Suite, cred: Credential, sk: nat, nym: nat, rNym: nat, ipk: IssuerPublicKey,
                    disclosure: seq<byte>, msg: seq<byte>, rhIndex: int, revocationAlg: int, rnd: Randomness)
    requires suite.Valid() && ipk.WellFormed() && |ipk.attributeNames| <= |cred.attrs|
    requires |rnd.rAttrs| == |Hidden(disclosure)| && !Same(suite.q, rnd.r1, 0)
    ensures match Sign(suite, cred, sk, nym, rNym, ipk, disclosure, msg, rhIndex, revocationAlg, rnd)
            case Ok(sig) =>
              && 0 <= rhIndex < |ipk.attributeNames| == |disclosure| && revocationAlg == 0
              && (exists j :: rhIndex <= j < |disclosure| && disclosure[j] == 0)
              && sig.revocationAlg == 0 && sig.nonce == rnd.nonce && sig.nym == nym
              && Same(suite.q, sig.aPrime, cred.a * rnd.r1)
              && Same(suite.q, sig.aBar, cred.b * rnd.r1 - sig.aPrime * cred.e)
              && Same(suite.q, sig.bPrime, cred.b * rnd.r1 - ipk.hRand * rnd.r2)
              && HonestResponses(suite.q, sig, cred, sk, rNym, Hidden(disclosure), rnd)
            case Err(InvalidInput) => rhIndex < 0 || rhIndex >= |ipk.attributeNames| || |disclosure| != |ipk.attributeNames|
            case Err(HandleDisclosed) => revocationAlg != 0 && 0 <= rhIndex < |disclosure| && disclosure[rhIndex] == 1
            case Err(UnknownRevocationAlgorithm) => revocationAlg != 0
            case Err(_) => false
            case Panic => 0 <= rhIndex && forall j :: rhIndex <= j < |disclosure| ==> disclosure[j] != 0
  {
    hide Mod, Hidden, SignData, Challenge, HonestResponses;
    var q := suite.q;
    if Sign(suite, cred, sk, nym, rNym, ipk, disclosure, msg, rhIndex, revocationAlg, rnd).Ok? {
      var p := Commit(suite, cred, nym, ipk, disclosure, rnd);
      var c := Challenge(suite, SignData(suite, p, ipk.hash, disclosure, msg), rnd.nonce);
      Reduced(q, cred.a * rnd.r1);
      Reduced(q, cred.b * rnd.r1 - p.aPrime * cred.e);
      Reduced(q, cred.b * rnd.r1 - ipk.hRand * rnd.r2);
      AnswerIsHonest(q, p, c, cred, sk, rNym, Hidden(disclosure), rnd);
    }
  }

  method NewSignature(suite: Suite, cred: Credential, sk: nat, nym: nat, rNym: nat, ipk: IssuerPublicKey,
                      disclosure: seq<byte>, msg: seq<byte>, rhIndex: int, revocationAlg: int, rnd: Randomness)
    returns (r: Outcome<Signature>)
    requires suite.Valid() && ipk.WellFormed() && |ipk.attributeNames| <= |cred.attrs|
    requires |rnd.rAttrs| == |Hidden(disclosure)| && !Same(suite.q, rnd.r1, 0)
    ensures r == Sign(suite, cred, sk, nym, rNym, ipk, disclosure, msg, rhIndex, revocationAlg, rnd)
  {
    if rhIndex < 0 || rhIndex >= |ipk.attributeNames| || |disclosure| != |ipk.attributeNames| {
      return Err(InvalidInput);
    }
    if revocationAlg != NO_REVOCATION && disclosure[rhIndex] == 1 {
      return Err(HandleDisclosed);
    }
    var hidden := HiddenIndices(disclosure);
    if revocationAlg != NO_REVOCATION {
      return Err(UnknownRevocationAlgorithm);
    }
    SearchStaysInRange(disclosure, rhIndex);
    if SearchInts(hidden, rhIndex) >= |rnd.rAttrs| {
      return Panic;
    }
    var p := CommitPoints(suite, cred, nym, ipk, disclosure, hidden, rnd);
    var c := SignChallenge(suite, p, ipk.hash, disclosure, msg, rnd.nonce);
    var sig := Responses(suite.q, p, c, cred, sk, rNym, hidden, rnd);
    r := Ok(sig);
  }

  method CommitPoints(suite: Suite, cred: Credential, nym: nat, ipk: IssuerPublicKey, disclosure: seq<byte>,
                      hidden: seq<nat>, rnd: Randomness) returns (p: Points)
    requires suite.Valid() && |disclosure| <= |ipk.hAttrs|
    requires hidden == Hidden(disclosure) && |rnd.rAttrs| == |hidden|
    ensures p == Commit(suite, cred, nym, ipk, disclosure, rnd)
  {
    var q := suite.q;
    var aPrime := Mod(cred.a * rnd.r1, q);
    var aBar := MulSubMul(q, cred.b, rnd.r1, aPrime, cred.e);
    var bPrime := MulSubMul(q, cred.b, rnd.r1, ipk.hRand, rnd.r2);
    var t1 := Mul2(q, aPrime, rnd.rE, ipk.hRand, rnd.rR2);
    var t2 := AttributeCommitment(q, ipk.hRand, rnd.rSPrime, bPrime, rnd.rR3, ipk.hSk, rnd.rSk,
                                  Select(ipk.hAttrs, hidden), rnd.rAttrs);
    var t3 := Mul2(q, ipk.hSk, rnd.rSk, ipk.hRand, rnd.rRNym);
    p := Points(t1, t2, t3, aPrime, aBar, bPrime, nym);
  }

  function Mul2(q: nat, x: nat, k: nat, y: nat, l: nat): nat
    requires q > 0
  {
    Mod(x * k + y * l, q)
  }

  method MulSubMul(q: nat, x: nat, k: nat, y: nat, l: nat) returns (r: nat)
    requires q > 0
    ensures r == Mod(x * k - y * l, q)
  {
    SubReduced(q, x * k, y * l);
    r := Mod(x * k, q);
    r := Mod(r - Mod(y * l, q), q);
  }

  /** The second commitment: one term for s', two for r3 and the secret key, the attributes in pairs. */
  method AttributeCommitment(q: nat, hRand: nat, s: nat, bPrime: nat, r3: nat, hSk: nat, sk: nat,
                             bases: seq<nat>, scalars: seq<nat>) returns (t: nat)
    requires q > 0 && |bases| == |scalars|
    ensures t == Mod(hRand * s + bPrime * r3 + hSk * sk + Dot(bases, scalars), q)
  {
    hide Mod;
    t := Mod(hRand * s, q);
    AddReduced(q, hRand * s, bPrime * r3 + hSk * sk);
    t := Mod(t + Mul2(q, bPrime, r3, hSk, sk), q);
    t := SumFrom(q, hRand * s + bPrime * r3 + hSk * sk, t, bases, scalars);
  }

  method Responses(q: nat, p: Points, c: nat, cred: Credential, sk: nat, rNym: nat, hidden: seq<nat>, rnd: Randomness)
    returns (sig: Signature)
    requires q > 1 && !Same(q, rnd.r1, 0)
    requires |rnd.rAttrs| == |hidden| && forall k :: 0 <= k < |hidden| ==> hidden[k] < |cred.attrs|
    ensures sig == Answer(q, p, c, cred, sk, rNym, hidden, rnd)
  {
    var r3 := Inverse(q, rnd.r1);
    var sSk := ModAddMul(q, rnd.rSk, c, sk);
    var sE := ModSubMul(q, rnd.rE, c, cred.e);
    var sR2 := ModAddMul(q, rnd.rR2, c, rnd.r2);
    var sR3 := ModSubMul(q, rnd.rR3, c, r3);
    var sPrime := Mod(cred.s - Mod(rnd.r2 * r3, q), q);
    BlindedResponse(q, rnd.rSPrime, c, cred.s, rnd.r2 * r3);
    var sSPrime := Mod(rnd.rSPrime + Mod(c * sPrime, q), q);
    var sRNym := ModAddMul(q, rnd.rRNym, c, rNym);
    var sAttrs := AttributeResponses(q, rnd.rAttrs, c, cred.attrs, hidden);
    sig := Signature(p.aPrime, p.aBar, p.bPrime, c, sSk, sE, sR2, sR3, sSPrime, sAttrs, rnd.nonce, p.nym, sRNym, NO_REVOCATION);
  }

  method AttributeResponses(q: nat, r: seq<nat>, c: nat, attrs: seq<nat>, hidden: seq<nat>) returns (s: seq<nat>)
    requires q > 0 && |r| == |hidden| && forall k :: 0 <= k < |hidden| ==> hidden[k] < |attrs|
    ensures s == RespondAll(q, r, c, Select(attrs, hidden))
  {
    s := [];
    for i := 0 to |hidden|
      invariant |s| == i
      invariant forall k :: 0 <= k < i ==> s[k] == Respond(q, r[k], c, attrs[hidden[k]])
    {
      var si := ModAddMul(q, r[i], c, attrs[hidden[i]]);
      s := s + [si];
    }
  }

  /** `Modsub(r, Modmul(c, x))` */
  method ModSubMul(q: nat, r: nat, c: nat, x: nat) returns (s: nat)
    requires q > 0
    ensures s == Mod(r - c * x, q)
  {
    AddUnreduced(q, r, c * x);
    s := Mod(r - Mod(c * x, q), q);
  }

  /** `Modadd(r, Modmul(c, x))` */
  method ModAddMul(q: nat, r: nat, c: nat, x: nat) returns (s: nat)
    requires q > 0
    ensures s == Respond(q, r, c, x)
  {
    AddUnreduced(q, r, c * x);
    s := Mod(r + Mod(c * x, q), q);
  }

  lemma BlindedResponse(q: nat, r: int, c: int, s: int, y: int)
    requires q > 0
    ensures Mod(r + Mod(c * Mod(s - Mod(y, q), q), q), q) == Mod(r + c * (s - y), q)
  {
    var s' := Mod(s - Mod(y, q), q);
    AddUnreduced(q, s, y);
    Reduced(q, s - y);
    ProductSame(q, c, c, s', s - y);
    AddUnreduced(q, r, c * s');
    SumSame(q, r, r, c * s', c * (s - y));
  }

  /** Continues a sum already reduced in `sum` with a product over bases, two at a time. */
  method SumFrom(q: nat, ghost exact: int, sum: nat, bases: seq<nat>, scalars: seq<nat>) returns (total: nat)
    requires q > 0 && sum == Mod(exact, q) && |bases| == |scalars|
    ensures total == Mod(exact + Dot(bases, scalars), q)
  {
    Reduced(q, exact);
    SumSame(q, sum, exact, Dot(bases, scalars), Dot(bases, scalars));
    total := PairedSum(q, sum, bases, scalars);
  }

  // -------------------------------------------------------------------------
  // Verification
  // -------------------------------------------------------------------------

  ghost function Recover(suite: Suite, sig: Signature, disclosure: seq<byte>, ipk: IssuerPublicKey, values: seq<nat>): Points
    requires suite.Valid() && |disclosure| <= |ipk.hAttrs| && Covers(disclosure, values)
    requires |sig.sAttrs| == |Hidden(disclosure)|
  {
    var q := suite.q;
    Points(
      Mod(sig.aPrime * sig.sE + ipk.hRand * sig.sR2 - (sig.aBar - sig.bPrime) * sig.c, q),
      Mod(ipk.hRand * sig.sSPrime + sig.bPrime * sig.sR3 + ipk.hSk * sig.sSk
       + Dot(Select(ipk.hAttrs, Hidden(disclosure)), sig.sAttrs)
       + (suite.g1 + DisclosedDot(disclosure, ipk.hAttrs, values)) * sig.c, q),
      Mod(ipk.hSk * sig.sSk + ipk.hRand * sig.sRNym - sig.nym * sig.c, q),
      sig.aPrime, sig.aBar, sig.bPrime, sig.nym)
  }

  ghost function Verdict(suite: Suite, sig: Signature, disclosure: seq<byte>, ipk: IssuerPublicKey,
                         msg: seq<byte>, values: seq<nat>, rhIndex: int): Outcome<()>
    requires suite.Valid() && ipk.WellFormed()
  {
    if BadIndices(ipk, disclosure, rhIndex) then Err(InvalidInput)
    else if sig.revocationAlg != NO_REVOCATION && disclosure[rhIndex] == 1 then Err(HandleDisclosed)
    else if |sig.sAttrs| != |Hidden(disclosure)| then Err(ResponseCount)
    else if Same(suite.q, sig.aPrime, 0) then Err(APrimeInfinity)
    else if !Same(suite.q, ipk.w * sig.aPrime - suite.g2 * sig.aBar, 0) then Err(PairingMismatch)
    else if !Covers(disclosure, values) then Panic
    else if sig.revocationAlg != NO_REVOCATION then Err(UnknownRevocationAlgorithm)
    else if !HandleLocated(disclosure, rhIndex) then Panic
    else if sig.c == Challenge(suite, SignData(suite, Recover(suite, sig, disclosure, ipk, values), ipk.hash, disclosure, msg), sig.nonce)
    then Ok(()) else Err(ProofInvalid)
  }

  /** The bytes under the challenge: the commitments that the responses open, the points, the key and the message. */
  ghost function Signed(suite: Suite, sig: Signature, disclosure: seq<byte>, ipk: IssuerPublicKey,
                        msg: seq<byte>, values: seq<nat>): seq<byte>
    requires suite.Valid() && |disclosure| <= |ipk.hAttrs| && Covers(disclosure, values)
    requires |sig.sAttrs| == |Hidden(disclosure)|
  {
    var t1 := Mod(sig.aPrime * sig.sE + ipk.hRand * sig.sR2 - (sig.aBar - sig.bPrime) * sig.c, suite.q);
    var t2 := Mod(ipk.hRand * sig.sSPrime + sig.bPrime * sig.sR3 + ipk.hSk * sig.sSk
                  + Dot(Select(ipk.hAttrs, Hidden(disclosure)), sig.sAttrs)
                  + (suite.g1 + DisclosedDot(disclosure, ipk.hAttrs, values)) * sig.c, suite.q);
    var t3 := Mod(ipk.hSk * sig.sSk + ipk.hRand * sig.sRNym - sig.nym * sig.c, suite.q);
    [115, 105, 103, 110] + suite.encodeG1(t1) + suite.encodeG1(t2) + suite.encodeG1(t3)
    + suite.encodeG1(sig.aPrime) + suite.encodeG1(sig.aBar) + suite.encodeG1(sig.bPrime)
    + suite.encodeG1(sig.nym) + Fit(ipk.hash, 32) + disclosure + msg
  }

  lemma SignedLayout(suite: Suite, sig: Signature, disclosure: seq<byte>, ipk: IssuerPublicKey,
                     msg: seq<byte>, values: seq<nat>)
    requires suite.Valid() && |disclosure| <= |ipk.hAttrs| && Covers(disclosure, values)
    requires |sig.sAttrs| == |Hidden(disclosure)|
    ensures SignData(suite, Recover(suite, sig, disclosure, ipk, values), ipk.hash, disclosure, msg)
            == Signed(suite, sig, disclosure, ipk, msg, values)
  {
    hide Mod, Dot, DisclosedDot, Hidden, SignData, Fit;
    SignLayout(suite, Recover(suite, sig, disclosure, ipk, values), ipk.hash, disclosure, msg);
  }

  /**
   What the verifier accepts: the disclosed values and the handle fit the disclosure, the randomized
   credential is not the identity and passes the pairing check, and the challenge is the double hash of
   the commitments that the responses open, the points, the key, the disclosure, the message and the nonce.
   */
  lemma SignatureAcceptance(suite: Suite, sig: Signature, disclosure: seq<byte>, ipk: IssuerPublicKey,
                            msg: seq<byte>, values: seq<nat>, rhIndex: int)
    requires suite.Valid() && ipk.WellFormed()
    ensures Verdict(suite, sig, disclosure, ipk, msg, values, rhIndex).Ok? <==>
            && 0 <= rhIndex < |ipk.attributeNames| == |disclosure|
            && sig.revocationAlg == 0
            && (exists j :: rhIndex <= j < |disclosure| && disclosure[j] == 0)
            && (forall i :: 0 <= i < |disclosure| && disclosure[i] != 0 ==> i < |values|)
            && |sig.sAttrs| == |Hidden(disclosure)|
            && !Same(suite.q, sig.aPrime, 0)
            && Same(suite.q, ipk.w * sig.aPrime, suite.g2 * sig.aBar)
            && var first := Mod(suite.hash(Signed(suite, sig, disclosure, ipk, msg, values)), suite.q);
               sig.c == Mod(suite.hash(suite.encodeBig(first) + suite.encodeBig(sig.nonce)), suite.q)
  {
    hide Mod, Dot, DisclosedDot, Hidden, Same, SignData, Fit, Recover, Signed;
    SameDifference(suite.q, ipk.w * sig.aPrime, suite.g2 * sig.aBar);
    if |disclosure| == |ipk.attributeNames| && |sig.sAttrs| == |Hidden(disclosure)| && Covers(disclosure, values) {
      SignedLayout(suite, sig, disclosure, ipk, msg, values);
    }
  }

  /** Every refusal names a cause that is there. */
  lemma SignatureRefusals(suite: Suite, sig: Signature, disclosure: seq<byte>, ipk: IssuerPublicKey,
                          msg: seq<byte>, values: seq<nat>, rhIndex: int)
    requires suite.Valid() && ipk.WellFormed()
    ensures match Verdict(suite, sig, disclosure, ipk, msg, values, rhIndex)
            case Err(InvalidInput) => rhIndex < 0 || rhIndex >= |ipk.attributeNames| || |disclosure| != |ipk.attributeNames|
            case Err(HandleDisclosed) => sig.revocationAlg != 0 && 0 <= rhIndex < |disclosure| && disclosure[rhIndex] == 1
            case Err(ResponseCount) => |sig.sAttrs| != |Hidden(disclosure)|
            case Err(APrimeInfinity) => Same(suite.q, sig.aPrime, 0)
            case Err(PairingMismatch) => !Same(suite.q, ipk.w * sig.aPrime, suite.g2 * sig.aBar)
            case Err(UnknownRevocationAlgorithm) => sig.revocationAlg != 0
            case Err(ProofInvalid) =>
              && sig.revocationAlg == 0 && Covers(disclosure, values) && |sig.sAttrs| == |Hidden(disclosure)|
              && |disclosure| <= |ipk.hAttrs|
              && sig.c != Challenge(suite, Signed(suite, sig, disclosure, ipk, msg, values), sig.nonce)
            case Err(_) => false
            case Panic =>
              || (exists i :: 0 <= i < |disclosure| && disclosure[i] != 0 && i >= |values|)
              || (0 <= rhIndex && forall j :: rhIndex <= j < |disclosure| ==> disclosure[j] != 0)
            case Ok(_) => true
  {
    hide Mod, Dot, DisclosedDot, Hidden, Same, SignData, Fit, Recover, Signed, Challenge;
    SameDifference(suite.q, ipk.w * sig.aPrime, suite.g2 * sig.aBar);
    if |disclosure| == |ipk.attributeNames| && |sig.sAttrs| == |Hidden(disclosure)| && Covers(disclosure, values) {
      SignedLayout(suite, sig, disclosure, ipk, msg, values);
    }
  }

  lemma SameDifference(q: nat, x: int, y: int)
    requires q > 0
    ensures Same(q, x - y, 0) <==> Same(q, x, y)
  {
    hide Mod;
    if Same(q, x - y, 0) {
      SumSame(q, x - y, 0, y, y);
    }
    if Same(q, x, y) {
      SumSame(q, x, y, y, y);
    }
  }

  method VerifySignature(suite: Suite, sig: Signature, disclosure: seq<byte>, ipk: IssuerPublicKey,
                         msg: seq<byte>, values: seq<nat>, rhIndex: int) returns (r: Outcome<()>)
    requires suite.Valid() && ipk.WellFormed()
    ensures r == Verdict(suite, sig, disclosure, ipk, msg, values, rhIndex)
  {
    if rhIndex < 0 || rhIndex >= |ipk.attributeNames| || |disclosure| != |ipk.attributeNames| {
      return Err(InvalidInput);
    }
    if sig.revocationAlg != NO_REVOCATION && disclosure[rhIndex] == 1 {
      return Err(HandleDisclosed);
    }
    var hidden := HiddenIndices(disclosure);
    if |sig.sAttrs| != |hidden| {
      return Err(ResponseCount);
    }
    var q := suite.q;
    Canonical(q, 0);
    if Mod(sig.aPrime, q) == 0 {
      return Err(APrimeInfinity);
    }
    var quotient := MulSubMul(q, ipk.w, sig.aPrime, suite.g2, sig.aBar);
    if quotient != 0 {
      return Err(PairingMismatch);
    }
    if !Covers(disclosure, values) {
      return Panic;
    }
    var p := RecoverPoints(suite, sig, disclosure, hidden, ipk, values);
    if sig.revocationAlg != NO_REVOCATION {
      return Err(UnknownRevocationAlgorithm);
    }
    SearchStaysInRange(disclosure, rhIndex);
    if SearchInts(hidden, rhIndex) >= |sig.sAttrs| {
      return Panic;
    }
    var c := SignChallenge(suite, p, ipk.hash, disclosure, msg, sig.nonce);
    r := if sig.c == c then Ok(()) else Err(ProofInvalid);
  }

  method RecoverPoints(suite: Suite, sig: Signature, disclosure: seq<byte>, hidden: seq<nat>, ipk: IssuerPublicKey,
                       values: seq<nat>) returns (p: Points)
    requires suite.Valid() && |disclosure| <= |ipk.hAttrs| && Covers(disclosure, values)
    requires hidden == Hidden(disclosure) && |sig.sAttrs| == |hidden|
    ensures p == Recover(suite, sig, disclosure, ipk, values)
  {
    var t1 := RecoverT1(suite.q, sig, ipk.hRand);
    var t2 := RecoverT2(suite, sig, disclosure, hidden, ipk, values);
    var t3 := RecoverT3(suite.q, sig, ipk.hSk, ipk.hRand);
    p := Points(t1, t2, t3, sig.aPrime, sig.aBar, sig.bPrime, sig.nym);
  }

  method RecoverT1(q: nat, sig: Signature, hRand: nat) returns (t1: nat)
    requires q > 0
    ensures t1 == Mod(sig.aPrime * sig.sE + hRand * sig.sR2 - (sig.aBar - sig.bPrime) * sig.c, q)
  {
    ghost var exact := sig.aPrime * sig.sE + hRand * sig.sR2;
    ghost var difference: int := (sig.aBar as int) - sig.bPrime;
    t1 := Mod(sig.aPrime * sig.sE + hRand * sig.sR2, q);
    var temp := Mod((sig.aBar as int) - sig.bPrime, q);
    Reduced(q, difference);
    ProductSame(q, temp, difference, sig.c, sig.c);
    SubReduced(q, exact, temp * sig.c);
    SumSame(q, exact, exact, temp * sig.c, difference * sig.c);
    t1 := Mod(t1 - Mod(temp * sig.c, q), q);
  }

  method RecoverT2(suite: Suite, sig: Signature, disclosure: seq<byte>, hidden: seq<nat>, ipk: IssuerPublicKey,
                   values: seq<nat>) returns (t2: nat)
    requires suite.Valid() && |disclosure| <= |ipk.hAttrs| && Covers(disclosure, values)
    requires hidden == Hidden(disclosure) && |sig.sAttrs| == |hidden|
    ensures t2 == Recover(suite, sig, disclosure, ipk, values).t2
  {
    var q := suite.q;
    ghost var exact := ipk.hRand * sig.sSPrime + sig.bPrime * sig.sR3 + ipk.hSk * sig.sSk;
    t2 := AttributeCommitment(q, ipk.hRand, sig.sSPrime, sig.bPrime, sig.sR3, ipk.hSk, sig.sSk,
                              Select(ipk.hAttrs, hidden), sig.sAttrs);
    var temp := KnownPart(q, suite.g1, disclosure, ipk.hAttrs, values);
    ghost var known := suite.g1 + DisclosedDot(disclosure, ipk.hAttrs, values);
    Reduced(q, known);
    ProductSame(q, temp, known, sig.c, sig.c);
    AddReduced(q, exact + Dot(Select(ipk.hAttrs, hidden), sig.sAttrs), known * sig.c);
    t2 := Mod(t2 + Mod(temp * sig.c, q), q);
  }

  method RecoverT3(q: nat, sig: Signature, hSk: nat, hRand: nat) returns (t3: nat)
    requires q > 0
    ensures t3 == Mod(hSk * sig.sSk + hRand * sig.sRNym - sig.nym * sig.c, q)
  {
    hide Mod;
    SubReduced(q, hSk * sig.sSk + hRand * sig.sRNym, sig.nym * sig.c);
    t3 := Mul2(q, hSk, sig.sSk, hRand, sig.sRNym);
    t3 := Mod(t3 - Mod(sig.nym * sig.c, q), q);
  }

  /** The generator times the disclosed attribute terms. */
  method KnownPart(q: nat, g1: nat, disclosure: seq<byte>, bases: seq<nat>, values: seq<nat>) returns (temp: nat)
    requires g1 < q && |disclosure| <= |bases| && Covers(disclosure, values)
    ensures temp == Mod(g1 + DisclosedDot(disclosure, bases, values), q)
  {
    temp := g1;
    Canonical(q, g1);
    for i := 0 to |disclosure|
      invariant temp == Mod(g1 + DisclosedDot(disclosure[..i], bases, values), q)
    {
      assert disclosure[..i + 1][..i] == disclosure[..i];
      if disclosure[i] != 0 {
        ghost var before := g1 + DisclosedDot(disclosure[..i], bases, values);
        ghost var term := bases[i] * values[i];
        AddReduced(q, before, term);
        temp := Mod(temp + Mod(bases[i] * values[i], q), q);
        assert temp == Mod(before + term, q);
      }
    }
    assert disclosure[..|disclosure|] == disclosure;
  }

  // -------------------------------------------------------------------------
  // Completeness
  // -------------------------------------------------------------------------

  lemma T1Recovers(q: nat, aPrime: int, aBar: int, bPrime: int, br: int, hr: int, e: int, r2: int,
                   rE: int, rR2: int, c: int, sE: int, sR2: int)
    requires q > 0
    requires Same(q, aBar, br - aPrime * e) && Same(q, bPrime, br - hr * r2)
    requires Same(q, sE, rE - c * e) && Same(q, sR2, rR2 + c * r2)
    ensures Same(q, aPrime * sE + hr * sR2 - (aBar - bPrime) * c, aPrime * rE + hr * rR2)
  {
    hide Mod;
    var u, v, w := aPrime * (rE - c * e), hr * (rR2 + c * r2), (br - aPrime * e) - (br - hr * r2);
    ProductSame(q, aPrime, aPrime, sE, rE - c * e);
    ProductSame(q, hr, hr, sR2, rR2 + c * r2);
    SumSame(q, aBar, br - aPrime * e, bPrime, br - hr * r2);
    ProductSame(q, aBar - bPrime, w, c, c);
    SumSame(q, aPrime * sE, u, hr * sR2, v);
    SumSame(q, aPrime * sE + hr * sR2, u + v, (aBar - bPrime) * c, w * c);
    T1Expansion(aPrime, hr, br, e, r2, rE, rR2, c);
  }

  lemma T1Expansion(aPrime: int, hr: int, br: int, e: int, r2: int, rE: int, rR2: int, c: int)
    ensures aPrime * (rE - c * e) + hr * (rR2 + c * r2) - ((br - aPrime * e) - (br - hr * r2)) * c
            == aPrime * rE + hr * rR2
  {
    var x, y := aPrime * e, hr * r2;
    assert aPrime * (rE - c * e) == aPrime * rE - c * x;
    assert hr * (rR2 + c * r2) == hr * rR2 + c * y;
    assert ((br - x) - (br - y)) * c == c * y - c * x;
  }

  lemma T3Recovers(q: nat, hSk: int, hr: int, sk: int, rNym: int, rSk: int, rRNym: int, nym: int,
                   c: int, sSk: int, sRNym: int)
    requires q > 0
    requires Same(q, nym, hSk * sk + hr * rNym)
    requires Same(q, sSk, rSk + c * sk) && Same(q, sRNym, rRNym + c * rNym)
    ensures Same(q, hSk * sSk + hr * sRNym - nym * c, hSk * rSk + hr * rRNym)
  {
    var u, v, w := hSk * (rSk + c * sk), hr * (rRNym + c * rNym), hSk * sk + hr * rNym;
    ProductSame(q, hSk, hSk, sSk, rSk + c * sk);
    ProductSame(q, hr, hr, sRNym, rRNym + c * rNym);
    ProductSame(q, nym, w, c, c);
    SumSame(q, hSk * sSk, u, hr * sRNym, v);
    SumSame(q, hSk * sSk + hr * sRNym, u + v, nym * c, w * c);
    T3Expansion(hSk, hr, sk, rNym, rSk, rRNym, c);
  }

  lemma T3Expansion(hSk: int, hr: int, sk: int, rNym: int, rSk: int, rRNym: int, c: int)
    ensures hSk * (rSk + c * sk) + hr * (rRNym + c * rNym) - (hSk * sk + hr * rNym) * c == hSk * rSk + hr * rRNym
  {
    var x, y := hSk * sk, hr * rNym;
    assert hSk * (rSk + c * sk) == hSk * rSk + c * x;
    assert hr * (rRNym + c * rNym) == hr * rRNym + c * y;
    assert (x + y) * c == c * x + c * y;
  }

  lemma {:induction false} DotResponds(q: nat, bases: seq<nat>, r: seq<nat>, c: nat, x: seq<nat>)
    requires q > 0 && |bases| == |r| == |x|
    ensures Same(q, Dot(bases, RespondAll(q, r, c, x)), Dot(bases, r) + c * Dot(bases, x))
  {
    hide Mod;
    if |r| > 0 {
      var n := |r| - 1;
      var s := RespondAll(q, r, c, x);
      assert s[..n] == RespondAll(q, r[..n], c, x[..n]);
      DotResponds(q, bases[..n], r[..n], c, x[..n]);
      Reduced(q, r[n] + c * x[n]);
      ProductSame(q, bases[n], bases[n], s[n], r[n] + c * x[n]);
      var u, v := Dot(bases[..n], r[..n]), Dot(bases[..n], x[..n]);
      SumSame(q, Dot(bases[..n], s[..n]), u + c * v, bases[n] * s[n], bases[n] * (r[n] + c * x[n]));
      DotRespondsStep(u, v, bases[n], r[n], c, x[n]);
    }
  }

  lemma DotRespondsStep(u: int, v: int, b: int, r: int, c: int, x: int)
    ensures (u + c * v) + b * (r + c * x) == (u + b * r) + c * (v + b * x)
  {
    assert b * (r + c * x) == b * r + b * (c * x);
    assert c * (v + b * x) == c * v + c * (b * x);
    assert b * (c * x) == c * (b * x);
  }

  /** The equation that the credential puts behind t2: its known part cancels. */
  lemma CredentialCancels(q: nat, b: int, hr: int, s: int, rest: int, r1: int, r2: int, r3: int, bPrime: int)
    requires q > 0
    requires Same(q, b, rest + hr * s) && Same(q, r1 * r3, 1) && Same(q, bPrime, b * r1 - hr * r2)
    ensures Same(q, hr * (s - r2 * r3) - bPrime * r3 + rest, 0)
  {
    hide Mod;
    ProductSame(q, bPrime, b * r1 - hr * r2, r3, r3);
    var x := hr * (s - r2 * r3) + rest;
    SumSame(q, x, x, bPrime * r3, (b * r1 - hr * r2) * r3);
    ProductSame(q, b, b, r1 * r3, 1);
    SumSame(q, rest + hr * s, b, b * (r1 * r3), b);
    assert hr * (s - r2 * r3) == hr * s - hr * (r2 * r3);
    assert (b * r1 - hr * r2) * r3 == b * (r1 * r3) - hr * (r2 * r3);
  }

  lemma T2Recovers(q: nat, hr: int, hSk: int, bPrime: int, r3: int, sPrime: int, sk: int, hiddenSum: int, known: int,
                   rSPrime: int, rR3: int, rSk: int, commitSum: int,
                   c: int, sSPrime: int, sR3: int, sSk: int, respondSum: int)
    requires q > 0
    requires Same(q, hr * sPrime - bPrime * r3 + hSk * sk + hiddenSum + known, 0)
    requires Same(q, sSPrime, rSPrime + c * sPrime) && Same(q, sR3, rR3 - c * r3) && Same(q, sSk, rSk + c * sk)
    requires Same(q, respondSum, commitSum + c * hiddenSum)
    ensures Same(q, hr * sSPrime + bPrime * sR3 + hSk * sSk + respondSum + known * c,
                    hr * rSPrime + bPrime * rR3 + hSk * rSk + commitSum)
  {
    var x1, x2, x3 := hr * (rSPrime + c * sPrime), bPrime * (rR3 - c * r3), hSk * (rSk + c * sk);
    var x4, x5 := commitSum + c * hiddenSum, known * c;
    ProductSame(q, hr, hr, sSPrime, rSPrime + c * sPrime);
    ProductSame(q, bPrime, bPrime, sR3, rR3 - c * r3);
    ProductSame(q, hSk, hSk, sSk, rSk + c * sk);
    SumSame(q, hr * sSPrime, x1, bPrime * sR3, x2);
    SumSame(q, hr * sSPrime + bPrime * sR3, x1 + x2, hSk * sSk, x3);
    SumSame(q, hr * sSPrime + bPrime * sR3 + hSk * sSk, x1 + x2 + x3, respondSum, x4);
    SumSame(q, hr * sSPrime + bPrime * sR3 + hSk * sSk + respondSum, x1 + x2 + x3 + x4, x5, x5);
    var z := hr * sPrime - bPrime * r3 + hSk * sk + hiddenSum + known;
    var commit := hr * rSPrime + bPrime * rR3 + hSk * rSk + commitSum;
    T2Expansion(hr, hSk, bPrime, r3, sPrime, sk, hiddenSum, known, rSPrime, rR3, rSk, commitSum, c);
    ProductSame(q, c, c, z, 0);
    SumSame(q, commit, commit, c * z, 0);
  }

  lemma T2Expansion(hr: int, hSk: int, bPrime: int, r3: int, sPrime: int, sk: int, hiddenSum: int, known: int,
                    rSPrime: int, rR3: int, rSk: int, commitSum: int, c: int)
    ensures hr * (rSPrime + c * sPrime) + bPrime * (rR3 - c * r3) + hSk * (rSk + c * sk)
            + (commitSum + c * hiddenSum) + known * c
            == (hr * rSPrime + bPrime * rR3 + hSk * rSk + commitSum)
               + c * (hr * sPrime - bPrime * r3 + hSk * sk + hiddenSum + known)
  {
    assert hr * (rSPrime + c * sPrime) == hr * rSPrime + c * (hr * sPrime);
    assert bPrime * (rR3 - c * r3) == bPrime * rR3 - c * (bPrime * r3);
    assert hSk * (rSk + c * sk) == hSk * rSk + c * (hSk * sk);
    var y := hr * sPrime - bPrime * r3 + hSk * sk;
    assert c * (y + hiddenSum + known) == c * y + c * hiddenSum + c * known;
    assert c * y == c * (hr * sPrime) - c * (bPrime * r3) + c * (hSk * sk);
  }

  /** The responses answer the challenge for the secrets behind the randomized credential. */
  ghost predicate HonestResponses(q: nat, sig: Signature, cred: Credential, sk: nat, rNym: nat, hidden: seq<nat>, rnd: Randomness)
    requires q > 1 && !Same(q, rnd.r1, 0)
    requires |rnd.rAttrs| == |hidden| && forall k :: 0 <= k < |hidden| ==> hidden[k] < |cred.attrs|
  {
    var r3 := Inverse(q, rnd.r1);
    && Same(q, sig.sSk, rnd.rSk + sig.c * sk)
    && Same(q, sig.sE, rnd.rE - sig.c * cred.e)
    && Same(q, sig.sR2, rnd.rR2 + sig.c * rnd.r2)
    && Same(q, sig.sR3, rnd.rR3 - sig.c * r3)
    && Same(q, sig.sSPrime, rnd.rSPrime + sig.c * (cred.s - rnd.r2 * r3))
    && Same(q, sig.sRNym, rnd.rRNym + sig.c * rNym)
    && sig.sAttrs == RespondAll(q, rnd.rAttrs, sig.c, Select(cred.attrs, hidden))
  }

  lemma AnswerIsHonest(q: nat, p: Points, c: nat, cred: Credential, sk: nat, rNym: nat, hidden: seq<nat>, rnd: Randomness)
    requires q > 1 && !Same(q, rnd.r1, 0)
    requires |rnd.rAttrs| == |hidden| && forall k :: 0 <= k < |hidden| ==> hidden[k] < |cred.attrs|
    ensures HonestResponses(q, Answer(q, p, c, cred, sk, rNym, hidden, rnd), cred, sk, rNym, hidden, rnd)
  {
    hide Mod;
    var r3 := Inverse(q, rnd.r1);
    Reduced(q, rnd.rSk + c * sk);
    Reduced(q, rnd.rE - c * cred.e);
    Reduced(q, rnd.rR2 + c * rnd.r2);
    Reduced(q, rnd.rR3 - c * r3);
    Reduced(q, rnd.rSPrime + c * (cred.s - rnd.r2 * r3));
    Reduced(q, rnd.rRNym + c * rNym);
  }

  lemma RecoversT2(suite: Suite, cred: Credential, sk: nat, rNym: nat, ipk: IssuerPublicKey,
                   disclosure: seq<byte>, rnd: Randomness, values: seq<nat>, sig: Signature)
    requires suite.Valid() && |disclosure| == |cred.attrs| <= |ipk.hAttrs| && Covers(disclosure, values)
    requires Same(suite.q, cred.b, SignedPoint(suite, ipk, ipk.hSk * sk, cred.s, cred.attrs))
    requires |rnd.rAttrs| == |Hidden(disclosure)| && !Same(suite.q, rnd.r1, 0)
    requires forall i :: 0 <= i < |disclosure| && disclosure[i] != 0 ==> values[i] == cred.attrs[i]
    requires HonestResponses(suite.q, sig, cred, sk, rNym, Hidden(disclosure), rnd)
    requires Same(suite.q, sig.bPrime, cred.b * rnd.r1 - ipk.hRand * rnd.r2)
    ensures Same(suite.q,
                 ipk.hRand * sig.sSPrime + sig.bPrime * sig.sR3 + ipk.hSk * sig.sSk
                 + Dot(Select(ipk.hAttrs, Hidden(disclosure)), sig.sAttrs)
                 + (suite.g1 + DisclosedDot(disclosure, ipk.hAttrs, values)) * sig.c,
                 ipk.hRand * rnd.rSPrime + sig.bPrime * rnd.rR3 + ipk.hSk * rnd.rSk
                 + Dot(Select(ipk.hAttrs, Hidden(disclosure)), rnd.rAttrs))
  {
    hide Mod, Dot, DisclosedDot, Hidden, Same, IsPrime, Inverse;
    var q, c := suite.q, sig.c;
    var bases, xs := Select(ipk.hAttrs, Hidden(disclosure)), Select(cred.attrs, Hidden(disclosure));
    var known := suite.g1 + DisclosedDot(disclosure, ipk.hAttrs, values);
    KnownPlusHidden(suite, ipk, disclosure, cred.attrs, values);
    InverseInverts(q, rnd.r1);
    DotResponds(q, bases, rnd.rAttrs, c, xs);
    SecondCommitment(q, cred.b, cred.s, ipk.hRand, ipk.hSk, sk, rnd, Inverse(q, rnd.r1), sig.bPrime, Dot(bases, xs), known,
                     Dot(bases, rnd.rAttrs), c, sig.sSPrime, sig.sR3, sig.sSk, Dot(bases, sig.sAttrs));
  }

  lemma SecondCommitment(q: nat, b: int, s: int, hr: int, hSk: int, sk: int, rnd: Randomness, r3: int, bPrime: int,
                         hiddenSum: int, known: int, commitSum: int, c: int, sSPrime: int, sR3: int, sSk: int, respondSum: int)
    requires q > 0 && Same(q, b, known + hSk * sk + hiddenSum + hr * s) && Same(q, rnd.r1 * r3, 1)
    requires Same(q, bPrime, b * rnd.r1 - hr * rnd.r2)
    requires Same(q, sSPrime, rnd.rSPrime + c * (s - rnd.r2 * r3)) && Same(q, sR3, rnd.rR3 - c * r3)
    requires Same(q, sSk, rnd.rSk + c * sk) && Same(q, respondSum, commitSum + c * hiddenSum)
    ensures Same(q, hr * sSPrime + bPrime * sR3 + hSk * sSk + respondSum + known * c,
                    hr * rnd.rSPrime + bPrime * rnd.rR3 + hSk * rnd.rSk + commitSum)
  {
    hide Mod;
    CredentialCancels(q, b, hr, s, known + hSk * sk + hiddenSum, rnd.r1, rnd.r2, r3, bPrime);
    T2Recovers(q, hr, hSk, bPrime, r3, s - rnd.r2 * r3, sk, hiddenSum, known,
               rnd.rSPrime, rnd.rR3, rnd.rSk, commitSum, c, sSPrime, sR3, sSk, respondSum);
  }

  lemma KnownPlusHidden(suite: Suite, ipk: IssuerPublicKey, disclosure: seq<byte>, attrs: seq<nat>, values: seq<nat>)
    requires |disclosure| == |attrs| <= |ipk.hAttrs| && Covers(disclosure, values)
    requires forall i :: 0 <= i < |disclosure| && disclosure[i] != 0 ==> values[i] == attrs[i]
    ensures DisclosedDot(disclosure, ipk.hAttrs, values)
            + Dot(Select(ipk.hAttrs, Hidden(disclosure)), Select(attrs, Hidden(disclosure)))
            == Dot(ipk.hAttrs[..|attrs|], attrs)
  {
    DisclosedAgree(disclosure, ipk.hAttrs, values, attrs);
    HiddenPlusDisclosed(disclosure, ipk.hAttrs, attrs);
    assert attrs[..|disclosure|] == attrs;
  }

  /** The verifier recovers exactly the commitments that the signer made, for every challenge. */
  lemma CommitmentsRecovered(suite: Suite, cred: Credential, sk: nat, nym: nat, rNym: nat, ipk: IssuerPublicKey,
                             disclosure: seq<byte>, rnd: Randomness, values: seq<nat>, c: nat)
    requires suite.Valid() && |disclosure| == |cred.attrs| <= |ipk.hAttrs| && Covers(disclosure, values)
    requires CredentialVerdict(suite, cred, sk, ipk).Ok?
    requires Same(suite.q, nym, ipk.hSk * sk + ipk.hRand * rNym)
    requires |rnd.rAttrs| == |Hidden(disclosure)| && !Same(suite.q, rnd.r1, 0)
    requires forall i :: 0 <= i < |disclosure| && disclosure[i] != 0 ==> values[i] == cred.attrs[i]
    ensures var p := Commit(suite, cred, nym, ipk, disclosure, rnd);
            Recover(suite, Answer(suite.q, p, c, cred, sk, rNym, Hidden(disclosure), rnd), disclosure, ipk, values) == p
  {
    hide Mod;
    var q := suite.q;
    var p := Commit(suite, cred, nym, ipk, disclosure, rnd);
    var sig := Answer(q, p, c, cred, sk, rNym, Hidden(disclosure), rnd);
    AnswerIsHonest(q, p, c, cred, sk, rNym, Hidden(disclosure), rnd);
    Reduced(q, cred.b * rnd.r1 - p.aPrime * cred.e);
    Reduced(q, cred.b * rnd.r1 - ipk.hRand * rnd.r2);
    T1Recovers(q, p.aPrime, p.aBar, p.bPrime, cred.b * rnd.r1, ipk.hRand, cred.e, rnd.r2,
               rnd.rE, rnd.rR2, c, sig.sE, sig.sR2);
    RecoversT2(suite, cred, sk, rNym, ipk, disclosure, rnd, values, sig);
    T3Recovers(q, ipk.hSk, ipk.hRand, sk, rNym, rnd.rSk, rnd.rRNym, nym, c, sig.sSk, sig.sRNym);
  }

  lemma PairingHolds(q: nat, w: int, g2: int, e: int, a: int, b: int, r1: int, aPrime: int, aBar: int)
    requires q > 0
    requires Same(q, (g2 * e + w) * a, g2 * b)
    requires Same(q, aPrime, a * r1) && Same(q, aBar, b * r1 - aPrime * e)
    ensures Same(q, w * aPrime - g2 * aBar, 0)
  {
    hide Mod;
    ProductSame(q, g2, g2, aBar, b * r1 - aPrime * e);
    SumSame(q, w * aPrime, w * aPrime, g2 * aBar, g2 * (b * r1 - aPrime * e));
    var u, v := (g2 * e + w), g2 * b;
    assert w * aPrime - g2 * (b * r1 - aPrime * e) == u * aPrime - v * r1 by {
      assert g2 * (b * r1 - aPrime * e) == v * r1 - (g2 * e) * aPrime;
      assert u * aPrime == (g2 * e) * aPrime + w * aPrime;
    }
    ProductSame(q, u, u, aPrime, a * r1);
    ProductSame(q, u * a, v, r1, r1);
    assert u * (a * r1) == (u * a) * r1;
    SumSame(q, u * aPrime, v * r1, v * r1, v * r1);
  }

  /**
   Completeness: a signature made with any credential that the credential check accepts verifies for the
   disclosed values, for every message, disclosure vector and randomness. The one exception is the
   degenerate credential whose point a is the identity.
   */
  lemma SignatureCompleteness(suite: Suite, cred: Credential, sk: nat, nym: nat, rNym: nat, ipk: IssuerPublicKey,
                              disclosure: seq<byte>, msg: seq<byte>, rhIndex: int, rnd: Randomness, values: seq<nat>)
    requires suite.Valid() && ipk.WellFormed() && |cred.attrs| == |ipk.attributeNames|
    requires CredentialVerdict(suite, cred, sk, ipk).Ok?
    requires Same(suite.q, nym, ipk.hSk * sk + ipk.hRand * rNym)
    requires |rnd.rAttrs| == |Hidden(disclosure)| && !Same(suite.q, rnd.r1, 0)
    requires !BadIndices(ipk, disclosure, rhIndex) && HandleLocated(disclosure, rhIndex)
    requires Covers(disclosure, values)
    requires forall i :: 0 <= i < |disclosure| && disclosure[i] != 0 ==> values[i] == cred.attrs[i]
    ensures Sign(suite, cred, sk, nym, rNym, ipk, disclosure, msg, rhIndex, NO_REVOCATION, rnd).Ok?
    ensures var sig := Sign(suite, cred, sk, nym, rNym, ipk, disclosure, msg, rhIndex, NO_REVOCATION, rnd).value;
            Verdict(suite, sig, disclosure, ipk, msg, values, rhIndex)
            == (if Same(suite.q, cred.a, 0) then Err(APrimeInfinity) else Ok(()))
  {
    hide Mod;
    var q := suite.q;
    var sig := Sign(suite, cred, sk, nym, rNym, ipk, disclosure, msg, rhIndex, NO_REVOCATION, rnd).value;
    CommitmentsRecovered(suite, cred, sk, nym, rNym, ipk, disclosure, rnd, values, sig.c);
    Reduced(q, cred.a * rnd.r1);
    Reduced(q, cred.b * rnd.r1 - sig.aPrime * cred.e);
    PairingHolds(q, ipk.w, suite.g2, cred.e, cred.a, cred.b, rnd.r1, sig.aPrime, sig.aBar);
    if Same(q, cred.a, 0) {
      ProductSame(q, cred.a, 0, rnd.r1, rnd.r1);
    }
    if Same(q, cred.a * rnd.r1, 0) {
      assert rnd.r1 * cred.a == cred.a * rnd.r1 && rnd.r1 * 0 == 0;
      Cancel(q, rnd.r1, cred.a, 0);
    }
  }

  /** A signature binds its message: accepted for two of them, it shows two byte strings with one double hash. */
  lemma MessageBound(suite: Suite, sig: Signature, disclosure: seq<byte>, ipk: IssuerPublicKey,
                     msg: seq<byte>, msg': seq<byte>, values: seq<nat>, rhIndex: int)
    requires suite.Valid() && ipk.WellFormed() && msg != msg'
    requires Verdict(suite, sig, disclosure, ipk, msg, values, rhIndex).Ok?
    requires Verdict(suite, sig, disclosure, ipk, msg', values, rhIndex).Ok?
    ensures Covers(disclosure, values) && |disclosure| <= |ipk.hAttrs| && |sig.sAttrs| == |Hidden(disclosure)|
    ensures var data, data' := Signed(suite, sig, disclosure, ipk, msg, values), Signed(suite, sig, disclosure, ipk, msg', values);
            data != data' && Challenge(suite, data, sig.nonce) == Challenge(suite, data', sig.nonce)
  {
    hide Mod, Dot, DisclosedDot, Hidden, Same, SignData, Fit, Recover;
    SignedLayout(suite, sig, disclosure, ipk, msg, values);
    SignedLayout(suite, sig, disclosure, ipk, msg', values);
    var data, data' := Signed(suite, sig, disclosure, ipk, msg, values), Signed(suite, sig, disclosure, ipk, msg', values);
    var head :| data == head + msg && data' == head + msg';
    if data == data' {
      SplitHead(head, msg, head, msg');
    }
  }

  /** The signature of a credential holder is refused for every other message whose challenge differs. */
  lemma OtherMessageRefused(suite: Suite, cred: Credential, sk: nat, nym: nat, rNym: nat, ipk: IssuerPublicKey,
                            disclosure: seq<byte>, msg: seq<byte>, msg': seq<byte>, rhIndex: int, rnd: Randomness, values: seq<nat>)
    requires suite.Valid() && ipk.WellFormed() && |cred.attrs| == |ipk.attributeNames|
    requires CredentialVerdict(suite, cred, sk, ipk).Ok? && !Same(suite.q, cred.a, 0)
    requires Same(suite.q, nym, ipk.hSk * sk + ipk.hRand * rNym)
    requires |rnd.rAttrs| == |Hidden(disclosure)| && !Same(suite.q, rnd.r1, 0)
    requires !BadIndices(ipk, disclosure, rhIndex) && HandleLocated(disclosure, rhIndex)
    requires Covers(disclosure, values)
    requires forall i :: 0 <= i < |disclosure| && disclosure[i] != 0 ==> values[i] == cred.attrs[i]
    ensures Sign(suite, cred, sk, nym, rNym, ipk, disclosure, msg, rhIndex, NO_REVOCATION, rnd).Ok?
    ensures var sig := Sign(suite, cred, sk, nym, rNym, ipk, disclosure, msg, rhIndex, NO_REVOCATION, rnd).value;
            var p := Commit(suite, cred, nym, ipk, disclosure, rnd);
            var c, c' := Challenge(suite, SignData(suite, p, ipk.hash, disclosure, msg), rnd.nonce),
                         Challenge(suite, SignData(suite, p, ipk.hash, disclosure, msg'), rnd.nonce);
            Verdict(suite, sig, disclosure, ipk, msg', values, rhIndex) == (if c' == c then Ok(()) else Err(ProofInvalid))
  {
    hide Mod, Same, Hidden, SignData, Challenge;
    var sig := Sign(suite, cred, sk, nym, rNym, ipk, disclosure, msg, rhIndex, NO_REVOCATION, rnd).value;
    SignatureCompleteness(suite, cred, sk, nym, rNym, ipk, disclosure, msg, rhIndex, rnd, values);
    CommitmentsRecovered(suite, cred, sk, nym, rNym, ipk, disclosure, rnd, values, sig.c);
  }

  /** A credential is degenerate exactly when it signs the identity. */
  lemma DegenerateCredential(suite: Suite, isk: nat, cred: Credential, sk: nat, ipk: IssuerPublicKey)
    requires suite.Valid() && |cred.attrs| <= |ipk.hAttrs|
    requires Same(suite.q, ipk.w, suite.g2 * isk) && !Same(suite.q, isk + cred.e, 0)
    requires CredentialVerdict(suite, cred, sk, ipk).Ok?
    ensures Same(suite.q, cred.a, 0) <==> Same(suite.q, cred.b, 0)
  {
    var q, x := suite.q, isk + cred.e;
    CredentialAcceptance(suite, isk, cred, sk, ipk);
    if Same(q, cred.a, 0) {
      ProductSame(q, x, x, cred.a, 0);
    }
    if Same(q, cred.b, 0) {
      assert x * 0 == 0;
      Cancel(q, x, cred.a, 0);
    }
  }

  /**
   Such a credential arises: for every request, attribute list and exponent e there is a draw of s for which the
   issuer signs the identity, as long as the base for the randomness is not the identity. The user accepts it.
   */
  lemma DegenerateArises(suite: Suite, isk: nat, ipk: IssuerPublicKey, m: CredRequest, sk: nat, attrs: seq<nat>, e: nat)
    returns (s: nat, cred: Credential)
    requires suite.Valid() && ipk.WellFormed() && !Same(suite.q, ipk.hRand, 0)
    requires Same(suite.q, ipk.w, suite.g2 * isk) && !Same(suite.q, isk + e, 0)
    requires RequestVerdict(suite, m, ipk).Ok? && Same(suite.q, m.nym, ipk.hSk * sk)
    requires |attrs| == |ipk.attributeNames|
    ensures s < suite.q && Issue(suite, isk, ipk, m, attrs, e, s) == Ok(cred) && cred.attrs == attrs
    ensures CredentialVerdict(suite, cred, sk, ipk).Ok? && Same(suite.q, cred.b, 0) && Same(suite.q, cred.a, 0)
  {
    var q := suite.q;
    var rest := suite.g1 + m.nym + Dot(ipk.hAttrs[..|attrs|], attrs);
    s := Mod(-rest * Inverse(q, ipk.hRand), q);
    var point := SignedPoint(suite, ipk, m.nym, s, attrs);
    assert point == rest + ipk.hRand * s;
    cred := Credential(Mod(Mod(point, q) * Inverse(q, isk + e), q), Mod(point, q), e, s, attrs);
    assert Issue(suite, isk, ipk, m, attrs, e, s) == Ok(cred);
    hide Mod, Dot, Issue, SignedPoint, RequestVerdict, CredentialVerdict, Inverse;
    RootRaises(q, ipk.hRand, -rest);
    SumSame(q, rest, rest, ipk.hRand * s, -rest);
    assert rest + (-rest) == 0;
    Reduced(q, point);
    IssuanceCompleteness(suite, isk, ipk, m, sk, attrs, e, s);
    DegenerateCredential(suite, isk, cred, sk, ipk);
  }

  /** And no signature made with it verifies. */
  lemma DegenerateNeverVerifies(suite: Suite, cred: Credential, sk: nat, nym: nat, rNym: nat, ipk: IssuerPublicKey,
                                disclosure: seq<byte>, msg: seq<byte>, rhIndex: int, rnd: Randomness)
    requires suite.Valid() && ipk.WellFormed() && |cred.attrs| == |ipk.attributeNames|
    requires CredentialVerdict(suite, cred, sk, ipk).Ok? && Same(suite.q, cred.a, 0)
    requires Same(suite.q, nym, ipk.hSk * sk + ipk.hRand * rNym)
    requires |rnd.rAttrs| == |Hidden(disclosure)| && !Same(suite.q, rnd.r1, 0)
    requires !BadIndices(ipk, disclosure, rhIndex) && HandleLocated(disclosure, rhIndex)
    ensures |disclosure| <= |cred.attrs|
    ensures Sign(suite, cred, sk, nym, rNym, ipk, disclosure, msg, rhIndex, NO_REVOCATION, rnd).Ok?
    ensures var sig := Sign(suite, cred, sk, nym, rNym, ipk, disclosure, msg, rhIndex, NO_REVOCATION, rnd).value;
            Verdict(suite, sig, disclosure, ipk, msg, cred.attrs, rhIndex) == Err(APrimeInfinity)
  {
    assert |disclosure| == |cred.attrs|;
    hide *;
    SignatureCompleteness(suite, cred, sk, nym, rNym, ipk, disclosure, msg, rhIndex, rnd, cred.attrs);
  }
}

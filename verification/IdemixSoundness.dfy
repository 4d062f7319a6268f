/**
 Special soundness: two accepting answers to one set of commitments under different challenges give away
 everything that the proof claims to know. The second answer may be judged under another hash, as when the
 prover is run again from its commitments with a hash that answers differently.
 */
module IdemixSoundness {
  import opened Field
  import opened Transcript
  import opened IdemixSuite
  import opened IdemixIssuance
  import opened IdemixSignature

  /** A linear relation between responses, read as a relation between extracted exponents. */
  lemma ExtractedTerm(q: nat, g: int, c: int, c': int, s: int, s': int)
    requires IsPrime(q) && !Same(q, c - c', 0)
    ensures Same(q, g * s - g * s', (c - c') * (g * Extracted(q, c, c', s, s')))
  {
    var x := Extracted(q, c, c', s, s');
    ExtractedScales(q, c, c', s, s');
    ProductSame(q, g, g, (c - c') * x, s - s');
    assert g * ((c - c') * x) == (c - c') * (g * x);
    assert g * (s - s') == g * s - g * s';
  }

  lemma TwoBaseExtraction(q: nat, g: int, h: int, y: int, c: int, s: int, u: int, c': int, s': int, u': int)
    requires IsPrime(q) && !Same(q, c - c', 0)
    requires Same(q, g * s + h * u - y * c, g * s' + h * u' - y * c')
    ensures Same(q, y, g * Extracted(q, c, c', s, s') + h * Extracted(q, c, c', u, u'))
  {
    hide Mod;
    var d, x, z := c - c', g * Extracted(q, c, c', s, s'), h * Extracted(q, c, c', u, u');
    ExtractedTerm(q, g, c, c', s, s');
    ExtractedTerm(q, h, c, c', u, u');
    var ds, du := g * s - g * s', h * u - h * u';
    SumSame(q, ds, d * x, du, d * z);
    var left, right := g * s + h * u - y * c, g * s' + h * u' - y * c';
    var shift := y * c - g * s' - h * u';
    SumSame(q, left, right, shift, shift);
    assert left + shift == ds + du;
    assert right + shift == d * y by { assert d * y == y * c - y * c'; }
    assert d * x + d * z == d * (x + z);
    Cancel(q, d, y, x + z);
  }

  // -------------------------------------------------------------------------
  // Pseudonym signatures
  // -------------------------------------------------------------------------

  datatype NymSignature = NymSignature(c: nat, sSk: nat, sRNym: nat, nonce: nat)

  function NymSize(msg: seq<byte>): nat {
    4 + 2 * G1_BYTES + FIELD_BYTES + |msg|
  }

  function NymData(suite: Suite, t: nat, nym: nat, ipkHash: seq<byte>, msg: seq<byte>): seq<byte> {
    var data := Zeros(NymSize(msg));
    var data := Put(data, 0, SIGN_LABEL);
    var data := Put(data, 4, suite.encodeG1(t));
    var data := Put(data, 4 + G1_BYTES, suite.encodeG1(nym));
    var data := Put(data, 4 + 2 * G1_BYTES, ipkHash);
    Put(data, 4 + 2 * G1_BYTES + FIELD_BYTES, msg)
  }

  method NymChallenge(suite: Suite, t: nat, nym: nat, ipkHash: seq<byte>, msg: seq<byte>, nonce: nat) returns (c: nat)
    requires suite.Valid()
    ensures c == Challenge(suite, NymData(suite, t, nym, ipkHash, msg), nonce)
  {
    var proofData := new byte[NymSize(msg)](_ => 0);
    assert proofData[..] == Zeros(NymSize(msg));
    var index := AppendBytes(proofData, 0, SIGN_LABEL);
    index := AppendBytes(proofData, index, suite.encodeG1(t));
    index := AppendBytes(proofData, index, suite.encodeG1(nym));
    var _ := AppendBytes(proofData, index, ipkHash);
    index := index + FIELD_BYTES;
    index := AppendBytes(proofData, index, msg);
    var first := suite.HashModOrder(proofData[..]);
    c := SecondHash(suite, proofData, first, nonce);
  }

  function SignNym(suite: Suite, sk: nat, nym: nat, rNym: nat, ipk: IssuerPublicKey, msg: seq<byte>,
                   nonce: nat, rSk: nat, rRNym: nat): NymSignature
    requires suite.Valid()
  {
    var t := Mod(ipk.hSk * rSk + ipk.hRand * rRNym, suite.q);
    var c := Challenge(suite, NymData(suite, t, nym, ipk.hash, msg), nonce);
    NymSignature(c, Respond(suite.q, rSk, c, sk), Respond(suite.q, rRNym, c, rNym), nonce)
  }

  method NewNymSignature(suite: Suite, sk: nat, nym: nat, rNym: nat, ipk: IssuerPublicKey, msg: seq<byte>,
                         nonce: nat, rSk: nat, rRNym: nat) returns (sig: NymSignature)
    requires suite.Valid()
    ensures sig == SignNym(suite, sk, nym, rNym, ipk, msg, nonce, rSk, rRNym)
  {
    hide Mod;
    var q := suite.q;
    var t := Mod(ipk.hSk * rSk + ipk.hRand * rRNym, q);
    var c := NymChallenge(suite, t, nym, ipk.hash, msg, nonce);
    AddUnreduced(q, rSk, c * sk);
    AddUnreduced(q, rRNym, c * rNym);
    sig := NymSignature(c, Mod(rSk + Mod(c * sk, q), q), Mod(rRNym + Mod(c * rNym, q), q), nonce);
  }

  function NymT(suite: Suite, sig: NymSignature, nym: nat, ipk: IssuerPublicKey): nat
    requires suite.q > 0
  {
    Mod(ipk.hSk * sig.sSk + ipk.hRand * sig.sRNym - nym * sig.c, suite.q)
  }

  predicate NymAccepted(suite: Suite, sig: NymSignature, nym: nat, ipk: IssuerPublicKey, msg: seq<byte>)
    requires suite.Valid()
  {
    sig.c == Challenge(suite, NymData(suite, NymT(suite, sig, nym, ipk), nym, ipk.hash, msg), sig.nonce)
  }

  /** The concatenation that the buffer holds. */
  lemma NymLayout(suite: Suite, t: nat, nym: nat, ipkHash: seq<byte>, msg: seq<byte>)
    requires suite.Valid()
    ensures NymData(suite, t, nym, ipkHash, msg)
            == [115, 105, 103, 110] + suite.encodeG1(t) + suite.encodeG1(nym) + Fit(ipkHash, 32) + msg
  {
    hide Put, Partial, Fit, Zeros;
    var n := NymSize(msg);
    var s0 := SIGN_LABEL;
    var s1 := s0 + suite.encodeG1(t);
    var s2 := s1 + suite.encodeG1(nym);
    EmptyBuffer(n);
    PutExtends([], n, s0);
    assert [] + s0 == s0;
    PutExtends(s0, n, suite.encodeG1(t));
    PutExtends(s1, n, suite.encodeG1(nym));
    PutFits(s2, n, ipkHash);
    PutBehindField(s2, ipkHash, FIELD_BYTES, msg);
  }

  /** Equal buffers bind the commitment, the pseudonym, the issuer key and the message. */
  lemma NymDataBinds(suite: Suite, t: nat, nym: nat, h: seq<byte>, msg: seq<byte>,
                     t': nat, nym': nat, h': seq<byte>, msg': seq<byte>)
    requires suite.Valid() && suite.Injective() && |h| == |h'| == FIELD_BYTES
    requires t < suite.q && nym < suite.q && t' < suite.q && nym' < suite.q
    requires NymData(suite, t, nym, h, msg) == NymData(suite, t', nym', h', msg')
    ensures t == t' && nym == nym' && h == h' && msg == msg'
  {
    NymLayout(suite, t, nym, h, msg);
    NymLayout(suite, t', nym', h', msg');
    hide NymData;
    ThreeItemsBind(SIGN_LABEL, suite.encodeG1(t), suite.encodeG1(nym), h, msg, [],
                   suite.encodeG1(t'), suite.encodeG1(nym'), h', msg', []);
    assert msg + [] == msg && msg' + [] == msg';
  }

  /** A pseudonym signature is accepted exactly when its challenge is the double hash over the opened commitment. */
  lemma NymAcceptance(suite: Suite, sig: NymSignature, nym: nat, ipk: IssuerPublicKey, msg: seq<byte>)
    requires suite.Valid()
    ensures NymAccepted(suite, sig, nym, ipk, msg) <==>
            var t := Mod(ipk.hSk * sig.sSk + ipk.hRand * sig.sRNym - nym * sig.c, suite.q);
            var first := Mod(suite.hash([115, 105, 103, 110] + suite.encodeG1(t) + suite.encodeG1(nym)
                                        + Fit(ipk.hash, 32) + msg), suite.q);
            sig.c == Mod(suite.hash(suite.encodeBig(first) + suite.encodeBig(sig.nonce)), suite.q)
  {
    hide Mod, NymData, Fit;
    NymLayout(suite, NymT(suite, sig, nym, ipk), nym, ipk.hash, msg);
  }

  method VerifyNym(suite: Suite, sig: NymSignature, nym: nat, ipk: IssuerPublicKey, msg: seq<byte>)
    returns (r: Outcome<()>)
    requires suite.Valid()
    ensures r == if NymAccepted(suite, sig, nym, ipk, msg) then Ok(()) else Err(ProofInvalid)
  {
    hide Mod;
    var q := suite.q;
    var t := Mod(ipk.hSk * sig.sSk + ipk.hRand * sig.sRNym, q);
    SubReduced(q, ipk.hSk * sig.sSk + ipk.hRand * sig.sRNym, nym * sig.c);
    t := Mod(t - Mod(nym * sig.c, q), q);
    var c := NymChallenge(suite, t, nym, ipk.hash, msg, sig.nonce);
    r := if sig.c == c then Ok(()) else Err(ProofInvalid);
  }

  /** A pseudonym signature by the owner of the pseudonym verifies. */
  lemma NymCompleteness(suite: Suite, sk: nat, nym: nat, rNym: nat, ipk: IssuerPublicKey, msg: seq<byte>,
                        nonce: nat, rSk: nat, rRNym: nat)
    requires suite.Valid() && Same(suite.q, nym, ipk.hSk * sk + ipk.hRand * rNym)
    ensures NymAccepted(suite, SignNym(suite, sk, nym, rNym, ipk, msg, nonce, rSk, rRNym), nym, ipk, msg)
  {
    var sig := SignNym(suite, sk, nym, rNym, ipk, msg, nonce, rSk, rRNym);
    Reduced(suite.q, rSk + sig.c * sk);
    Reduced(suite.q, rRNym + sig.c * rNym);
    T3Recovers(suite.q, ipk.hSk, ipk.hRand, sk, rNym, rSk, rRNym, nym, sig.c, sig.sSk, sig.sRNym);
  }

  /** Two accepted signatures, under any hash, with one commitment and different challenges determine an opening of the pseudonym. */
  lemma NymSpecialSoundness(suite: Suite, nym: nat, ipk: IssuerPublicKey, hash': seq<byte> -> nat,
                            msg: seq<byte>, msg': seq<byte>, sig: NymSignature, sig': NymSignature)
    requires suite.Valid() && sig.c != sig'.c
    requires NymAccepted(suite, sig, nym, ipk, msg) && NymAccepted(suite.(hash := hash'), sig', nym, ipk, msg')
    requires NymT(suite, sig, nym, ipk) == NymT(suite, sig', nym, ipk)
    ensures !Same(suite.q, sig.c - sig'.c, 0)
    ensures Same(suite.q, nym,
                 ipk.hSk * Extracted(suite.q, sig.c, sig'.c, sig.sSk, sig'.sSk)
                 + ipk.hRand * Extracted(suite.q, sig.c, sig'.c, sig.sRNym, sig'.sRNym))
  {
    assert sig.c < suite.q && sig'.c < suite.q;
    hide Mod, NymData, Challenge;
    DistinctChallenges(suite.q, sig.c, sig'.c);
    TwoBaseExtraction(suite.q, ipk.hSk, ipk.hRand, nym, sig.c, sig.sSk, sig.sRNym, sig'.c, sig'.sSk, sig'.sRNym);
  }

  // -------------------------------------------------------------------------
  // Signatures
  // -------------------------------------------------------------------------

  ghost function ExtractedAll(q: nat, c: int, c': int, s: seq<nat>, s': seq<nat>): (x: seq<nat>)
    requires IsPrime(q) && !Same(q, c - c', 0) && |s| == |s'|
    ensures |x| == |s|
  {
    seq(|s|, i requires 0 <= i < |s| => Extracted(q, c, c', s[i], s'[i]))
  }

  lemma {:induction false} ExtractedDot(q: nat, bases: seq<nat>, c: int, c': int, s: seq<nat>, s': seq<nat>)
    requires IsPrime(q) && !Same(q, c - c', 0) && |bases| == |s| == |s'|
    ensures Same(q, Dot(bases, s) - Dot(bases, s'), (c - c') * Dot(bases, ExtractedAll(q, c, c', s, s')))
  {
    hide Mod;
    var d, x := c - c', ExtractedAll(q, c, c', s, s');
    if |s| == 0 {
      assert d * 0 == 0;
    } else {
      var n := |s| - 1;
      assert x[..n] == ExtractedAll(q, c, c', s[..n], s'[..n]);
      ExtractedDot(q, bases[..n], c, c', s[..n], s'[..n]);
      ExtractedTerm(q, bases[n], c, c', s[n], s'[n]);
      var u, v := Dot(bases[..n], x[..n]), bases[n] * x[n];
      var last: int, last': int := bases[n] * s[n], bases[n] * s'[n];
      SumSame(q, Dot(bases[..n], s[..n]) - Dot(bases[..n], s'[..n]), d * u, last - last', d * v);
      assert d * u + d * v == d * (u + v);
    }
  }

  /** The attribute list made of the disclosed values and the extracted hidden ones. */
  ghost function Merge(disclosure: seq<byte>, values: seq<nat>, hidden: seq<nat>): (r: seq<nat>)
    requires Covers(disclosure, values) && |hidden| == |Hidden(disclosure)|
    ensures |r| == |disclosure|
    ensures forall i :: 0 <= i < |r| && disclosure[i] != 0 ==> r[i] == values[i]
  {
    if disclosure == [] then [] else
    var n := |disclosure| - 1;
    if disclosure[n] == 0
    then Merge(disclosure[..n], values, hidden[..|hidden| - 1]) + [hidden[|hidden| - 1]]
    else Merge(disclosure[..n], values, hidden) + [values[n]]
  }

  lemma {:induction false} MergeDot(disclosure: seq<byte>, bases: seq<nat>, values: seq<nat>, hidden: seq<nat>)
    requires Covers(disclosure, values) && |disclosure| <= |bases| && |hidden| == |Hidden(disclosure)|
    ensures Dot(bases[..|disclosure|], Merge(disclosure, values, hidden))
            == Dot(Select(bases, Hidden(disclosure)), hidden) + DisclosedDot(disclosure, bases, values)
  {
    if disclosure != [] {
      var n := |disclosure| - 1;
      var init, m := disclosure[..n], Merge(disclosure, values, hidden);
      assert Covers(init, values);
      if disclosure[n] == 0 {
        var k := |hidden| - 1;
        assert m == Merge(init, values, hidden[..k]) + [hidden[k]] && Hidden(disclosure) == Hidden(init) + [n];
        MergeDot(init, bases, values, hidden[..k]);
        SelectStep(bases, Hidden(init), n, hidden);
        LastTerm(bases, Merge(init, values, hidden[..k]), hidden[k]);
      } else {
        assert m == Merge(init, values, hidden) + [values[n]] && Hidden(disclosure) == Hidden(init);
        MergeDot(init, bases, values, hidden);
        LastTerm(bases, Merge(init, values, hidden), values[n]);
      }
    }
  }

  lemma LastTerm(bases: seq<nat>, xs: seq<nat>, x: nat)
    requires |xs| < |bases|
    ensures Dot(bases[..|xs| + 1], xs + [x]) == Dot(bases[..|xs|], xs) + bases[|xs|] * x
  {
    var ys := xs + [x];
    DotStep(bases, ys, |xs|);
    assert ys[..|xs| + 1] == ys && ys[..|xs|] == xs;
  }

  lemma SelectStep(bases: seq<nat>, indices: seq<nat>, n: nat, xs: seq<nat>)
    requires n < |bases| && |xs| == |indices| + 1 && forall k :: 0 <= k < |indices| ==> indices[k] < |bases|
    ensures Dot(Select(bases, indices + [n]), xs) == Dot(Select(bases, indices), xs[..|indices|]) + bases[n] * xs[|indices|]
  {
    var sel, k := Select(bases, indices + [n]), |indices|;
    DotStep(sel, xs, k);
    assert sel[..k] == Select(bases, indices) && sel[..k + 1] == sel && xs[..k + 1] == xs;
  }

  /** The exponents of the proof, with e and r3 sign-corrected and the attributes completed. */
  datatype Exponents = Exponents(sk: nat, e: nat, r2: nat, r3: nat, sPrime: nat, attrs: seq<nat>)

  function Negate(q: nat, x: int): nat
    requires q > 0
  {
    Mod(-x, q)
  }

  ghost function ExtractedExponents(q: nat, sig: Signature, sig': Signature, disclosure: seq<byte>, values: seq<nat>)
    : (x: Exponents)
    requires IsPrime(q) && !Same(q, sig.c - sig'.c, 0)
    requires Covers(disclosure, values) && |sig.sAttrs| == |sig'.sAttrs| == |Hidden(disclosure)|
    ensures |x.attrs| == |disclosure|
  {
    var c, c' := sig.c, sig'.c;
    Exponents(
      Extracted(q, c, c', sig.sSk, sig'.sSk),
      Negate(q, Extracted(q, c, c', sig.sE, sig'.sE)),
      Extracted(q, c, c', sig.sR2, sig'.sR2),
      Negate(q, Extracted(q, c, c', sig.sR3, sig'.sR3)),
      Extracted(q, c, c', sig.sSPrime, sig'.sSPrime),
      Merge(disclosure, values, ExtractedAll(q, c, c', sig.sAttrs, sig'.sAttrs)))
  }

  /** The BBS+ credential over those exponents. */
  ghost function Assembled(suite: Suite, aPrime: nat, x: Exponents, ipk: IssuerPublicKey): Credential
    requires suite.q > 0 && |x.attrs| <= |ipk.hAttrs|
  {
    var s := x.sPrime + x.r2 * x.r3;
    Credential(Mod(aPrime * x.r3, suite.q), Mod(SignedPoint(suite, ipk, ipk.hSk * x.sk, s, x.attrs), suite.q), x.e, s, x.attrs)
  }

  lemma T2Extraction(q: nat, hr: int, bPrime: int, hSk: int, known: int, c: int, c': int,
                     s1: int, s1': int, s2: int, s2': int, s3: int, s3': int, sum: int, sum': int, hiddenSum: int)
    requires IsPrime(q) && !Same(q, c - c', 0)
    requires Same(q, sum - sum', (c - c') * hiddenSum)
    requires Same(q, hr * s1 + bPrime * s2 + hSk * s3 + sum + known * c,
                     hr * s1' + bPrime * s2' + hSk * s3' + sum' + known * c')
    ensures Same(q, hr * Extracted(q, c, c', s1, s1') + bPrime * Extracted(q, c, c', s2, s2')
                    + hSk * Extracted(q, c, c', s3, s3') + hiddenSum + known, 0)
  {
    var d := c - c';
    var x1, x2, x3 := hr * Extracted(q, c, c', s1, s1'), bPrime * Extracted(q, c, c', s2, s2'),
                      hSk * Extracted(q, c, c', s3, s3');
    ExtractedTerm(q, hr, c, c', s1, s1');
    ExtractedTerm(q, bPrime, c, c', s2, s2');
    ExtractedTerm(q, hSk, c, c', s3, s3');
    var d1, d2, d3, d4 := hr * s1 - hr * s1', bPrime * s2 - bPrime * s2', hSk * s3 - hSk * s3', sum - sum';
    SumSame(q, d1, d * x1, d2, d * x2);
    SumSame(q, d1 + d2, d * x1 + d * x2, d3, d * x3);
    SumSame(q, d1 + d2 + d3, d * x1 + d * x2 + d * x3, d4, d * hiddenSum);
    SumSame(q, d1 + d2 + d3 + d4, d * x1 + d * x2 + d * x3 + d * hiddenSum, known * d, known * d);
    var left := hr * s1 + bPrime * s2 + hSk * s3 + sum + known * c;
    var right := hr * s1' + bPrime * s2' + hSk * s3' + sum' + known * c';
    SumSame(q, left, right, right, right);
    assert left - right == d1 + d2 + d3 + d4 + known * d by { assert known * d == known * c - known * c'; }
    var z := x1 + x2 + x3 + hiddenSum + known;
    Distribute(d, x1, x2, x3, hiddenSum, known);
    assert d * 0 == 0;
    Cancel(q, d, z, 0);
  }

  lemma Distribute(d: int, x1: int, x2: int, x3: int, x4: int, x5: int)
    ensures d * x1 + d * x2 + d * x3 + d * x4 + x5 * d == d * (x1 + x2 + x3 + x4 + x5)
  {
    assert d * (x1 + x2 + x3 + x4 + x5) == d * (x1 + x2 + x3) + d * x4 + d * x5;
    assert d * (x1 + x2 + x3) == d * x1 + d * x2 + d * x3;
  }

  /** The extracted exponents satisfy the BBS+ equation. */
  lemma ExtractedPairing(q: nat, g2: int, w: int, hr: int, aPrime: int, aBar: int, bPrime: int,
                         e: int, r2: int, r3: int, sPrime: int, rest: int)
    requires q > 0
    requires Same(q, w * aPrime - g2 * aBar, 0)
    requires Same(q, aBar - bPrime, hr * r2 - aPrime * e)
    requires Same(q, bPrime * r3, hr * sPrime + rest)
    ensures Same(q, (g2 * e + w) * (aPrime * r3), g2 * (rest + hr * (sPrime + r2 * r3)))
  {
    hide Mod;
    var x := g2 * e + w;
    var y := bPrime + hr * r2;
    // (g2*e + w) * a' = g2 * (b' + hr*r2)
    SumSame(q, aBar - bPrime, hr * r2 - aPrime * e, aPrime * e + bPrime, aPrime * e + bPrime);
    assert (aBar - bPrime) + (aPrime * e + bPrime) == aBar + aPrime * e;
    assert (hr * r2 - aPrime * e) + (aPrime * e + bPrime) == y;
    ProductSame(q, g2, g2, aBar + aPrime * e, y);
    var v := g2 * (aBar + aPrime * e);
    SumSame(q, w * aPrime - g2 * aBar, 0, v, v);
    assert (w * aPrime - g2 * aBar) + v == x * aPrime by {
      assert v == g2 * aBar + g2 * (aPrime * e);
      assert g2 * (aPrime * e) == (g2 * e) * aPrime;
    }
    ProductSame(q, x * aPrime, g2 * y, r3, r3);
    assert (x * aPrime) * r3 == x * (aPrime * r3);
    // (b' + hr*r2) * r3 = rest + hr * (s' + r2*r3)
    SumSame(q, bPrime * r3, hr * sPrime + rest, hr * (r2 * r3), hr * (r2 * r3));
    assert y * r3 == bPrime * r3 + hr * (r2 * r3) by { assert (hr * r2) * r3 == hr * (r2 * r3); }
    assert hr * (sPrime + r2 * r3) == hr * sPrime + hr * (r2 * r3);
    ProductSame(q, g2, g2, y * r3, rest + hr * (sPrime + r2 * r3));
    assert (g2 * y) * r3 == g2 * (y * r3);
  }

  lemma Negated(q: nat, g: int, x: int)
    requires q > 0
    ensures Same(q, g * Negate(q, x), -(g * x))
  {
    Reduced(q, -x);
    ProductSame(q, g, g, Negate(q, x), -x);
    assert g * (-x) == -(g * x);
  }

  /** The responses are as many as the disclosure demands, and open the same points and commitments. */
  ghost predicate SameOpening(suite: Suite, sig: Signature, sig': Signature, disclosure: seq<byte>,
                              ipk: IssuerPublicKey, values: seq<nat>)
    requires suite.Valid()
  {
    && Covers(disclosure, values) && |disclosure| <= |ipk.hAttrs| && |sig.sAttrs| == |sig'.sAttrs| == |Hidden(disclosure)|
    && Recover(suite, sig, disclosure, ipk, values) == Recover(suite, sig', disclosure, ipk, values)
  }

  /**
   The exponents extracted from the two signatures make a credential that the credential check accepts, with the
   disclosed values in it, and its secret key opens the pseudonym.
   */
  ghost predicate GivesAway(suite: Suite, sig: Signature, sig': Signature, disclosure: seq<byte>,
                            ipk: IssuerPublicKey, values: seq<nat>)
    requires suite.Valid()
  {
    && Covers(disclosure, values) && |disclosure| <= |ipk.hAttrs| && |sig.sAttrs| == |sig'.sAttrs| == |Hidden(disclosure)|
    && !Same(suite.q, sig.c - sig'.c, 0)
    && var x := ExtractedExponents(suite.q, sig, sig', disclosure, values);
       var rNym := Extracted(suite.q, sig.c, sig'.c, sig.sRNym, sig'.sRNym);
       && CredentialVerdict(suite, Assembled(suite, sig.aPrime, x, ipk), x.sk, ipk).Ok?
       && Same(suite.q, sig.nym, ipk.hSk * x.sk + ipk.hRand * rNym)
       && forall i :: 0 <= i < |disclosure| && disclosure[i] != 0 ==> x.attrs[i] == values[i]
  }

  /**
   Two accepted signatures, of any messages and under any hash, with the same points, commitments and disclosed values
   and different challenges give away a credential and the opening of the pseudonym.
   */
  lemma SignatureSpecialSoundness(suite: Suite, hash': seq<byte> -> nat, sig: Signature, sig': Signature, disclosure: seq<byte>,
                                  ipk: IssuerPublicKey, msg: seq<byte>, msg': seq<byte>, values: seq<nat>, rhIndex: int)
    requires suite.Valid() && ipk.WellFormed() && sig.c != sig'.c
    requires SameOpening(suite, sig, sig', disclosure, ipk, values)
    requires Verdict(suite, sig, disclosure, ipk, msg, values, rhIndex).Ok?
    requires Verdict(suite.(hash := hash'), sig', disclosure, ipk, msg', values, rhIndex).Ok?
    ensures GivesAway(suite, sig, sig', disclosure, ipk, values)
  {
    hide Verdict, Recover, Hidden, Same, Covers, Mod, Extracted, ExtractedExponents, Assembled, CredentialVerdict;
    OtherHash(suite, hash');
    AcceptedFacts(suite, sig, disclosure, ipk, msg, values, rhIndex);
    AcceptedFacts(suite.(hash := hash'), sig', disclosure, ipk, msg', values, rhIndex);
    DistinctChallenges(suite.q, sig.c, sig'.c);
    SignatureExtraction(suite, sig, sig', disclosure, ipk, values);
  }

  lemma OtherHash(suite: Suite, hash': seq<byte> -> nat)
    requires suite.Valid()
    ensures suite.(hash := hash').Valid()
  {
  }

  lemma AcceptedFacts(suite: Suite, sig: Signature, disclosure: seq<byte>, ipk: IssuerPublicKey,
                      msg: seq<byte>, values: seq<nat>, rhIndex: int)
    requires suite.Valid() && ipk.WellFormed() && Verdict(suite, sig, disclosure, ipk, msg, values, rhIndex).Ok?
    ensures Covers(disclosure, values) && |disclosure| <= |ipk.hAttrs| && |sig.sAttrs| == |Hidden(disclosure)|
    ensures Same(suite.q, ipk.w * sig.aPrime - suite.g2 * sig.aBar, 0) && sig.c < suite.q
  {
    hide SignData, Recover, Hidden, Same;
  }

  /**
   Two signatures over the same points, commitments and disclosed values, with different challenges, both
   past the pairing check, determine a credential that the credential check accepts for the disclosed
   values, and an opening of the pseudonym with the secret key of that very credential.
   */
  lemma SignatureExtraction(suite: Suite, sig: Signature, sig': Signature, disclosure: seq<byte>,
                            ipk: IssuerPublicKey, values: seq<nat>)
    requires suite.Valid() && Covers(disclosure, values) && |disclosure| <= |ipk.hAttrs|
    requires |sig.sAttrs| == |sig'.sAttrs| == |Hidden(disclosure)|
    requires Same(suite.q, ipk.w * sig.aPrime - suite.g2 * sig.aBar, 0)
    requires Recover(suite, sig, disclosure, ipk, values) == Recover(suite, sig', disclosure, ipk, values)
    requires !Same(suite.q, sig.c - sig'.c, 0)
    ensures var x := ExtractedExponents(suite.q, sig, sig', disclosure, values);
            var rNym := Extracted(suite.q, sig.c, sig'.c, sig.sRNym, sig'.sRNym);
            && CredentialVerdict(suite, Assembled(suite, sig.aPrime, x, ipk), x.sk, ipk).Ok?
            && Same(suite.q, sig.nym, ipk.hSk * x.sk + ipk.hRand * rNym)
            && forall i :: 0 <= i < |disclosure| && disclosure[i] != 0 ==> x.attrs[i] == values[i]
  {
    hide Mod;
    var q, c, c' := suite.q, sig.c, sig'.c;
    var x := ExtractedExponents(q, sig, sig', disclosure, values);
    TwoBaseExtraction(q, ipk.hSk, ipk.hRand, sig.nym, c, sig.sSk, sig.sRNym, c', sig'.sSk, sig'.sRNym);
    ExtractedEquations(suite, sig, sig', disclosure, ipk, values);
    AssembledAccepted(suite, sig.aPrime, sig.aBar, sig.bPrime, x, ipk);
  }

  /** What the extracted exponents say about the randomized credential. */
  lemma ExtractedEquations(suite: Suite, sig: Signature, sig': Signature, disclosure: seq<byte>,
                           ipk: IssuerPublicKey, values: seq<nat>)
    requires suite.Valid() && Covers(disclosure, values) && |disclosure| <= |ipk.hAttrs|
    requires |sig.sAttrs| == |sig'.sAttrs| == |Hidden(disclosure)|
    requires Recover(suite, sig, disclosure, ipk, values) == Recover(suite, sig', disclosure, ipk, values)
    requires !Same(suite.q, sig.c - sig'.c, 0)
    ensures var x := ExtractedExponents(suite.q, sig, sig', disclosure, values);
            && Same(suite.q, sig.aBar - sig.bPrime, ipk.hRand * x.r2 - sig.aPrime * x.e)
            && Same(suite.q, sig.bPrime * x.r3, SignedPoint(suite, ipk, ipk.hSk * x.sk, x.sPrime, x.attrs))
  {
    hide Mod;
    var q, c, c' := suite.q, sig.c, sig'.c;
    var x := ExtractedExponents(q, sig, sig', disclosure, values);
    var xE, x3 := Extracted(q, c, c', sig.sE, sig'.sE), Extracted(q, c, c', sig.sR3, sig'.sR3);
    var xs := ExtractedAll(q, c, c', sig.sAttrs, sig'.sAttrs);
    var bases := Select(ipk.hAttrs, Hidden(disclosure));
    var known := suite.g1 + DisclosedDot(disclosure, ipk.hAttrs, values);
    TwoBaseExtraction(q, sig.aPrime, ipk.hRand, sig.aBar - sig.bPrime, c, sig.sE, sig.sR2, c', sig'.sE, sig'.sR2);
    Negated(q, sig.aPrime, xE);
    SumSame(q, ipk.hRand * x.r2, ipk.hRand * x.r2, sig.aPrime * x.e, -(sig.aPrime * xE));
    ExtractedDot(q, bases, c, c', sig.sAttrs, sig'.sAttrs);
    T2Extraction(q, ipk.hRand, sig.bPrime, ipk.hSk, known, c, c',
                 sig.sSPrime, sig'.sSPrime, sig.sR3, sig'.sR3, sig.sSk, sig'.sSk,
                 Dot(bases, sig.sAttrs), Dot(bases, sig'.sAttrs), Dot(bases, xs));
    MergeDot(disclosure, ipk.hAttrs, values, xs);
    var point := ipk.hRand * x.sPrime + ipk.hSk * x.sk + Dot(bases, xs) + known;
    Negated(q, sig.bPrime, x3);
    SumSame(q, point + sig.bPrime * x3, 0, sig.bPrime * x3, sig.bPrime * x3);
  }

  lemma AssembledAccepted(suite: Suite, aPrime: nat, aBar: nat, bPrime: nat, x: Exponents, ipk: IssuerPublicKey)
    requires suite.Valid() && |x.attrs| <= |ipk.hAttrs|
    requires Same(suite.q, ipk.w * aPrime - suite.g2 * aBar, 0)
    requires Same(suite.q, aBar - bPrime, ipk.hRand * x.r2 - aPrime * x.e)
    requires Same(suite.q, bPrime * x.r3, SignedPoint(suite, ipk, ipk.hSk * x.sk, x.sPrime, x.attrs))
    ensures CredentialVerdict(suite, Assembled(suite, aPrime, x, ipk), x.sk, ipk).Ok?
  {
    hide Mod;
    var q, g2 := suite.q, suite.g2;
    var cred := Assembled(suite, aPrime, x, ipk);
    var rest := suite.g1 + ipk.hSk * x.sk + Dot(ipk.hAttrs[..|x.attrs|], x.attrs);
    ExtractedPairing(q, g2, ipk.w, ipk.hRand, aPrime, aBar, bPrime, x.e, x.r2, x.r3, x.sPrime, rest);
    var point := rest + ipk.hRand * cred.s;
    Reduced(q, aPrime * x.r3);
    ProductSame(q, g2 * x.e + ipk.w, g2 * x.e + ipk.w, cred.a, aPrime * x.r3);
    Reduced(q, point);
    ProductSame(q, g2, g2, cred.b, point);
  }
}

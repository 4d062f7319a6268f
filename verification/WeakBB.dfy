/** Weak Boneh-Boyen signatures. */
module WeakBB {
  import opened Field
  import opened IdemixSuite
  import opened Wrappers

  function PublicKey(s: Suite, sk: nat): nat
    requires s.q > 0
  {
    Mod(s.g2 * sk, s.q)
  }

  /** Inversion needs something to invert. */
  function Sign(s: Suite, sk: nat, m: nat): nat
    requires s.q > 1 && !Same(s.q, sk + m, 0)
  {
    Mod(s.g1 * Inverse(s.q, sk + m), s.q)
  }

  predicate Verify(s: Suite, pk: Option<nat>, sig: Option<nat>, m: Option<nat>)
    requires s.q > 0
  {
    && pk.Some? && sig.Some? && m.Some?
    && Same(s.q, Mod(pk.value + Mod(s.g2 * m.value, s.q), s.q) * sig.value, s.g1 * s.g2)
  }

  /** The equation that the pairing check comes down to. */
  lemma VerifyMeans(s: Suite, sk: nat, sig: nat, m: nat)
    requires s.Valid()
    ensures Verify(s, Some(PublicKey(s, sk)), Some(sig), Some(m)) <==> Same(s.q, (sk + m) * sig, s.g1)
  {
    var q := s.q;
    var pk, gm := PublicKey(s, sk), Mod(s.g2 * m, q);
    var p := Mod(pk + gm, q);
    Reduced(q, s.g2 * sk);
    Reduced(q, s.g2 * m);
    SumSame(q, pk, s.g2 * sk, gm, s.g2 * m);
    Reduced(q, pk + gm);
    Canonical(q, s.g2);
    Canonical(q, 0);
    hide Mod;
    ProductSame(q, p, s.g2 * sk + s.g2 * m, sig, sig);
    var x := (sk + m) * sig;
    Regroup(s.g2, sk, m, sig);
    if Same(q, x, s.g1) {
      ProductSame(q, s.g2, s.g2, x, s.g1);
    } else if Same(q, s.g2 * x, s.g2 * s.g1) {
      Cancel(q, s.g2, x, s.g1);
    }
  }

  lemma Regroup(g: int, sk: int, m: int, sig: int)
    ensures (g * sk + g * m) * sig == g * ((sk + m) * sig)
  {
    assert g * sk + g * m == g * (sk + m);
  }

  /** For each message there is exactly one signature, unless message and key cancel out: then there is none. */
  lemma UniqueSignature(s: Suite, sk: nat, sig: nat, m: nat)
    requires s.Valid() && sig < s.q
    ensures Verify(s, Some(PublicKey(s, sk)), Some(sig), Some(m)) <==>
            !Same(s.q, sk + m, 0) && sig == Sign(s, sk, m)
  {
    var q, e := s.q, sk + m;
    VerifyMeans(s, sk, sig, m);
    Canonical(q, s.g1);
    Canonical(q, 0);
    Canonical(q, sig);
    if Same(q, e, 0) {
      hide Mod;
      ProductSame(q, e, 0, sig, sig);
    } else {
      Solves(s, e, sig);
    }
  }

  lemma Solves(s: Suite, e: nat, sig: nat)
    requires s.Valid() && sig < s.q && !Same(s.q, e, 0)
    ensures Same(s.q, e * sig, s.g1) <==> sig == Mod(s.g1 * Inverse(s.q, e), s.q)
  {
    var q := s.q;
    var i := Inverse(q, e);
    var x := s.g1 * i;
    InverseInverts(q, e);
    Canonical(q, sig);
    hide Mod;
    ProductSame(q, s.g1, s.g1, e * i, 1);
    assert s.g1 * (e * i) == e * x;
    if Same(q, e * sig, s.g1) {
      Cancel(q, e, sig, x);
    } else if sig == Mod(x, q) {
      Reduced(q, x);
      ProductSame(q, e, e, sig, x);
    }
  }
}

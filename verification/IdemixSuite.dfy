/**
 The algebra below the Identity Mixer protocol. Points of G1 and G2 are represented by their discrete
 logarithms modulo the prime group order q, so that the pairing is a product. The hash and the byte
 encodings are arbitrary functions, and every random draw is an argument.
 */
module IdemixSuite {
  import opened Field
  import opened Transcript
  import opened Wrappers

  datatype Error =
    | InvalidInput
    | HandleDisclosed
    | UnknownRevocationAlgorithm
    | ResponseCount
    | APrimeInfinity
    | PairingMismatch
    | ProofInvalid
    | Undefined
    | AttributeCount
    | BValueMismatch
    | CredentialInvalid

  /** Panic is an index or slice expression out of range. */
  datatype Outcome<+T> = Ok(value: T) | Err(error: Error) | Panic

  datatype Suite = Suite(
    q: nat,
    g1: nat,
    g2: nat,
    encodeG1: nat -> seq<byte>,
    encodeG2: nat -> seq<byte>,
    encodeBig: nat -> seq<byte>,
    hash: seq<byte> -> nat)
  {
    ghost predicate Valid() {
      && IsPrime(q)
      && 0 < g1 < q
      && 0 < g2 < q
      && (forall x :: |encodeG1(x)| == G1_BYTES)
      && (forall x :: |encodeG2(x)| == G2_BYTES)
      && (forall x :: |encodeBig(x)| == FIELD_BYTES)
    }

    /** Distinct points have distinct encodings. */
    ghost predicate Injective() {
      && (forall x: nat, y: nat :: x < q && y < q && encodeG1(x) == encodeG1(y) ==> x == y)
      && (forall x: nat, y: nat :: x < q && y < q && encodeG2(x) == encodeG2(y) ==> x == y)
    }

    function HashModOrder(data: seq<byte>): nat
      requires q > 0
    {
      Mod(hash(data), q)
    }
  }

  /** The assumptions about the algebra and the encodings can be met. */
  lemma SuiteExists() returns (suite: Suite)
    ensures suite.Valid() && suite.Injective()
  {
    suite := Suite(2, 1, 1, x => seq(G1_BYTES, _ => if x == 0 then 0 else 1), x => seq(G2_BYTES, _ => if x == 0 then 0 else 1),
                   _ => seq(FIELD_BYTES, _ => 0), _ => 0);
    forall x: nat, y: nat | x < 2 && y < 2 && suite.encodeG1(x) == suite.encodeG1(y) ensures x == y {
      assert suite.encodeG1(x)[0] == suite.encodeG1(y)[0];
    }
    forall x: nat, y: nat | x < 2 && y < 2 && suite.encodeG2(x) == suite.encodeG2(y) ensures x == y {
      assert suite.encodeG2(x)[0] == suite.encodeG2(y)[0];
    }
  }

  datatype IssuerPublicKey = IssuerPublicKey(
    attributeNames: seq<string>,
    hSk: nat,
    hRand: nat,
    hAttrs: seq<nat>,
    w: nat,
    barG1: nat,
    barG2: nat,
    proofC: nat,
    proofS: nat,
    hash: seq<byte>)
  {
    /** A base for every attribute, as the key check demands. */
    predicate WellFormed() {
      |attributeNames| <= |hAttrs|
    }
  }

  datatype CredRequest = CredRequest(nym: nat, issuerNonce: Option<seq<byte>>, proofC: nat, proofS: nat)

  datatype Credential = Credential(a: nat, b: nat, e: nat, s: nat, attrs: seq<nat>)

  /** The scalar product computed two bases at a time, with the odd one added last. */
  method PairedSum(q: nat, start: nat, bases: seq<nat>, scalars: seq<nat>) returns (sum: nat)
    requires q > 0 && start < q
    requires |bases| == |scalars|
    ensures sum == Mod(start + Dot(bases, scalars), q)
  {
    hide Mod;
    var n := |scalars|;
    sum := start;
    Canonical(q, start);
    for i := 0 to n / 2
      invariant sum == Mod(start + Dot(bases[..2 * i], scalars[..2 * i]), q)
    {
      var j := 2 * i;
      var both := Mod(bases[j] * scalars[j] + bases[j + 1] * scalars[j + 1], q);
      DotStep(bases, scalars, j);
      DotStep(bases, scalars, j + 1);
      AddReduced(q, start + Dot(bases[..j], scalars[..j]), bases[j] * scalars[j] + bases[j + 1] * scalars[j + 1]);
      sum := Mod(sum + both, q);
    }
    if n % 2 != 0 {
      DotStep(bases, scalars, n - 1);
      AddReduced(q, start + Dot(bases[..n - 1], scalars[..n - 1]), bases[n - 1] * scalars[n - 1]);
      sum := Mod(sum + Mod(bases[n - 1] * scalars[n - 1], q), q);
    }
    assert bases[..n] == bases && scalars[..n] == scalars;
  }

  lemma AddReduced(q: nat, x: int, y: int)
    requires q > 0
    ensures Mod(Mod(x, q) + Mod(y, q), q) == Mod(x + y, q)
  {
    Reduced(q, x);
    Reduced(q, y);
    SumSame(q, Mod(x, q), x, Mod(y, q), y);
  }

  lemma SubReduced(q: nat, x: int, y: int)
    requires q > 0
    ensures Mod(Mod(x, q) - Mod(y, q), q) == Mod(x - y, q)
  {
    Reduced(q, x);
    Reduced(q, y);
    SumSame(q, Mod(x, q), x, Mod(y, q), y);
  }

  lemma AddUnreduced(q: nat, x: int, y: int)
    requires q > 0
    ensures Mod(x + Mod(y, q), q) == Mod(x + y, q) && Mod(x - Mod(y, q), q) == Mod(x - y, q)
  {
    Reduced(q, y);
    SumSame(q, x, x, Mod(y, q), y);
  }

  lemma DotStep(xs: seq<int>, ys: seq<int>, n: nat)
    requires n < |xs| && n < |ys|
    ensures Dot(xs[..n + 1], ys[..n + 1]) == Dot(xs[..n], ys[..n]) + xs[n] * ys[n]
  {
    assert xs[..n + 1][..n] == xs[..n] && ys[..n + 1][..n] == ys[..n];
  }
}

/** Membership principals: checking a flattened combination against checking it recursively. */
module Principals {

  /** MSP versions in order; combinations are supported from 1.3 on. */
  datatype Version = V1_0 | V1_1 | V1_3 | V1_4_3

  datatype Leaf = Leaf(classification: nat, principal: seq<int>)

  /** A combination whose encoding cannot be decoded has no parts. */
  datatype Principal =
    | Simple(leaf: Leaf)
    | Combined(parts: Parts)

  datatype Parts = Undecodable | Decoded(principals: seq<Principal>)

  datatype Error = Unsupported | NotDecodable | NoPrincipals | NotSatisfied(reason: nat)

  datatype Result<+T> = Ok(value: T) | Err(error: Error)

  datatype Verdict = Satisfied | Failed(error: Error)

  /** How one simple principal is judged. */
  type Check = Leaf -> Verdict

  predicate SupportsCombined(v: Version) {
    !v.V1_0? && !v.V1_1?
  }

  // -------------------------------------------------------------------------
  // What a principal means
  // -------------------------------------------------------------------------

  /** Every combination in the principal is supported, decodable and not empty. */
  ghost predicate WellFormed(p: Principal, v: Version) {
    p.Combined? ==>
      && (v == V1_3 || v == V1_4_3) && p.parts.Decoded? && p.parts.principals != []
      && forall i :: 0 <= i < |p.parts.principals| ==> WellFormed(p.parts.principals[i], v)
  }

  /** The simple principals in it, from left to right. */
  ghost function Leaves(p: Principal): seq<Leaf> {
    match p
    case Simple(leaf) => [leaf]
    case Combined(Undecodable) => []
    case Combined(Decoded(ps)) => LeavesOf(ps)
  }

  ghost function LeavesOf(ps: seq<Principal>): seq<Leaf> {
    if ps == [] then [] else Leaves(ps[0]) + LeavesOf(ps[1..])
  }

  /** The verdict on a list of simple principals is that of the first one not satisfied. */
  ghost function First(check: Check, leaves: seq<Leaf>): Verdict {
    if leaves == [] then Satisfied
    else if check(leaves[0]).Failed? then check(leaves[0])
    else First(check, leaves[1..])
  }

  lemma {:induction false} FirstAppend(check: Check, a: seq<Leaf>, b: seq<Leaf>)
    ensures First(check, a + b) == if First(check, a).Failed? then First(check, a) else First(check, b)
  {
    if a == [] {
      assert a + b == b;
    } else {
      assert (a + b)[1..] == a[1..] + b;
      FirstAppend(check, a[1..], b);
    }
  }

  lemma {:induction false} FirstIsAll(check: Check, leaves: seq<Leaf>)
    ensures First(check, leaves).Satisfied? <==> forall i :: 0 <= i < |leaves| ==> check(leaves[i]).Satisfied?
  {
    if leaves != [] {
      FirstIsAll(check, leaves[1..]);
      assert forall i :: 0 < i < |leaves| ==> leaves[i] == leaves[1..][i - 1];
      assert forall i :: 0 <= i < |leaves[1..]| ==> leaves[1..][i] == leaves[i + 1];
    }
  }

  // -------------------------------------------------------------------------
  // Flattening
  // -------------------------------------------------------------------------

  /** Collects the simple principals, and fails exactly when a combination somewhere is not well-formed. */
  method CollectPrincipals(p: Principal, v: Version) returns (r: Result<seq<Leaf>>)
    ensures r.Ok? <==> WellFormed(p, v)
    ensures r.Ok? ==> r.value == Leaves(p)
    ensures r == Err(Unsupported) <==> p.Combined? && (v == V1_0 || v == V1_1)
    ensures r == Err(NotDecodable) ==> exists path :: Reaches(p, path, Combined(Undecodable))
    ensures r == Err(NoPrincipals) ==> exists path :: Reaches(p, path, Combined(Decoded([])))
    ensures r.Err? ==> r.error in {Unsupported, NotDecodable, NoPrincipals}
    decreases p
  {
    match p {
      case Simple(leaf) => return Ok([leaf]);
      case Combined(parts) =>
        if !SupportsCombined(v) {
          return Err(Unsupported);
        }
        if parts.Undecodable? {
          assert Reaches(p, [], Combined(Undecodable));
          return Err(NotDecodable);
        }
        var ps := parts.principals;
        if |ps| == 0 {
          assert Reaches(p, [], Combined(Decoded([])));
          return Err(NoPrincipals);
        }
        var leaves: seq<Leaf> := [];
        for i := 0 to |ps|
          invariant leaves == LeavesOf(ps[..i])
          invariant forall j :: 0 <= j < i ==> WellFormed(ps[j], v)
        {
          var inner := CollectPrincipals(ps[i], v);
          if inner.Err? {
            ReachesInside(p, i, Combined(Undecodable));
            ReachesInside(p, i, Combined(Decoded([])));
            return Err(inner.error);
          }
          LeavesOfAppend(ps[..i], ps[i]);
          assert ps[..i + 1] == ps[..i] + [ps[i]];
          leaves := leaves + inner.value;
        }
        assert ps[..|ps|] == ps;
        return Ok(leaves);
    }
  }

  lemma {:induction false} LeavesOfAppend(ps: seq<Principal>, p: Principal)
    ensures LeavesOf(ps + [p]) == LeavesOf(ps) + Leaves(p)
  {
    if ps != [] {
      assert (ps + [p])[1..] == ps[1..] + [p];
      LeavesOfAppend(ps[1..], p);
    }
  }

  lemma ReachesInside(p: Principal, i: nat, q: Principal)
    requires p.Combined? && p.parts.Decoded? && i < |p.parts.principals|
    ensures (exists path :: Reaches(p.parts.principals[i], path, q)) ==> exists path :: Reaches(p, path, q)
  {
    if path :| Reaches(p.parts.principals[i], path, q) {
      assert ([i] + path)[1..] == path;
      assert Reaches(p, [i] + path, q);
    }
  }

  /** The check of the certificate-based MSP. */
  method SatisfiesFlattened(p: Principal, v: Version, check: Check) returns (r: Verdict)
    ensures r.Satisfied? <==> WellFormed(p, v) && First(check, Leaves(p)).Satisfied?
    ensures WellFormed(p, v) ==> r == First(check, Leaves(p))
  {
    var collected := CollectPrincipals(p, v);
    if collected.Err? {
      return Failed(collected.error);
    }
    var leaves := collected.value;
    for i := 0 to |leaves|
      invariant First(check, leaves[..i]) == Satisfied
    {
      FirstAppend(check, leaves[..i], [leaves[i]]);
      assert leaves[..i + 1] == leaves[..i] + [leaves[i]];
      var verdict := check(leaves[i]);
      if verdict.Failed? {
        FirstAppend(check, leaves[..i + 1], leaves[i + 1..]);
        assert leaves == leaves[..i + 1] + leaves[i + 1..];
        assert First(check, [leaves[i]]) == verdict;
        return verdict;
      }
    }
    assert leaves[..|leaves|] == leaves;
    r := Satisfied;
  }

  // -------------------------------------------------------------------------
  // Recursion
  // -------------------------------------------------------------------------

  /** The shape of the anonymous-credential MSP's check, which descends into combinations. */
  method SatisfiesRecursively(p: Principal, v: Version, check: Check) returns (r: Verdict)
    ensures r.Satisfied? <==> WellFormed(p, v) && First(check, Leaves(p)).Satisfied?
    ensures WellFormed(p, v) ==> r == First(check, Leaves(p))
    decreases p
  {
    match p {
      case Simple(leaf) =>
        assert First(check, [leaf]) == if check(leaf).Failed? then check(leaf) else Satisfied;
        r := check(leaf);
      case Combined(parts) =>
        if !SupportsCombined(v) {
          return Failed(Unsupported);
        }
        if parts.Undecodable? {
          return Failed(NotDecodable);
        }
        var ps := parts.principals;
        if |ps| == 0 {
          return Failed(NoPrincipals);
        }
        for i := 0 to |ps|
          invariant First(check, LeavesOf(ps[..i])) == Satisfied
          invariant forall j :: 0 <= j < i ==> WellFormed(ps[j], v)
        {
          hide First, Leaves, LeavesOf;
          var inner := SatisfiesRecursively(ps[i], v, check);
          NextPart(check, ps, i);
          if inner.Failed? {
            assert !WellFormed(ps[i], v) ==> !WellFormed(p, v);
            return inner;
          }
        }
        assert ps[..|ps|] == ps;
        return Satisfied;
    }
  }

  lemma NextPart(check: Check, ps: seq<Principal>, i: nat)
    requires i < |ps| && First(check, LeavesOf(ps[..i])).Satisfied?
    ensures First(check, LeavesOf(ps[..i + 1])) == First(check, Leaves(ps[i]))
    ensures First(check, Leaves(ps[i])).Failed? ==> First(check, LeavesOf(ps)) == First(check, Leaves(ps[i]))
  {
    hide First, Leaves, LeavesOf;
    LeavesOfAppend(ps[..i], ps[i]);
    assert ps[..i + 1] == ps[..i] + [ps[i]];
    FirstAppend(check, LeavesOf(ps[..i]), Leaves(ps[i]));
    LeavesOfSplit(ps, i + 1);
    FirstAppend(check, LeavesOf(ps[..i + 1]), LeavesOf(ps[i + 1..]));
  }

  lemma {:induction false} LeavesOfSplit(ps: seq<Principal>, k: nat)
    requires k <= |ps|
    ensures LeavesOf(ps) == LeavesOf(ps[..k]) + LeavesOf(ps[k..])
    decreases |ps| - k
  {
    if k == |ps| {
      assert ps[..k] == ps;
    } else {
      LeavesOfSplit(ps, k + 1);
      LeavesOfAppend(ps[..k], ps[k]);
      assert ps[..k + 1] == ps[..k] + [ps[k]];
      assert ps[k..][1..] == ps[k + 1..];
    }
  }

  /**
   Flattening preserves meaning: both checks accept exactly the same principals, and on well-formed ones they
   return the same error too.
   */
  method CompareChecks(p: Principal, v: Version, check: Check) returns (flat: Verdict, nested: Verdict)
    ensures flat.Satisfied? <==> nested.Satisfied?
    ensures WellFormed(p, v) ==> flat == nested
    ensures flat.Satisfied? <==> WellFormed(p, v) && forall i :: 0 <= i < |Leaves(p)| ==> check(Leaves(p)[i]).Satisfied?
  {
    flat := SatisfiesFlattened(p, v, check);
    nested := SatisfiesRecursively(p, v, check);
    FirstIsAll(check, Leaves(p));
  }

  /** Nothing that contains an empty combination, however deep, is accepted. */
  lemma {:induction false} EmptyInside(p: Principal, v: Version, path: seq<nat>)
    requires Reaches(p, path, Combined(Decoded([])))
    ensures !WellFormed(p, v)
    decreases |path|
  {
    if path != [] {
      EmptyInside(p.parts.principals[path[0]], v, path[1..]);
    }
  }

  /** Following the path of positions from p arrives at q. */
  ghost predicate Reaches(p: Principal, path: seq<nat>, q: Principal)
    decreases |path|
  {
    if path == [] then p == q
    else p.Combined? && p.parts.Decoded? && path[0] < |p.parts.principals| && Reaches(p.parts.principals[path[0]], path[1..], q)
  }
}

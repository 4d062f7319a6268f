/** Classification of identities by their organizational units. */
module OrganizationalUnits {
  import opened Wrappers

  type Bytes = seq<int>

  datatype OU = OU(name: string, certifier: Bytes)

  datatype Role = Client | Peer | Admin | Orderer | Other

  /** What the MSP's configuration says about organizational units. */
  datatype Msp = Msp(
    recognized: map<string, seq<Bytes>>,
    enforced: bool,
    client: Option<OU>,
    peer: Option<OU>,
    admin: Option<OU>,
    orderer: Option<OU>)

  function NodeOU(msp: Msp, role: Role): Option<OU> {
    match role
    case Client => msp.client
    case Peer => msp.peer
    case Admin => msp.admin
    case Orderer => msp.orderer
    case Other => None
  }

  datatype Verdict = Accepted | NoneRecognized | CertifierMismatch | NotExactlyOne

  // -------------------------------------------------------------------------
  // What is accepted
  // -------------------------------------------------------------------------

  /** One of the units is recognized under one of its certifiers. */
  ghost predicate Recognized(msp: Msp, ous: seq<OU>) {
    msp.recognized != map[] ==>
      exists i :: 0 <= i < |ous| && ous[i].name in msp.recognized && ous[i].certifier in msp.recognized[ous[i].name]
  }

  /** The unit with this name that marks a role; of two roles with one name, the later one counts. */
  function Special(msp: Msp, name: string): Option<OU> {
    if msp.orderer.Some? && msp.orderer.value.name == name then msp.orderer
    else if msp.admin.Some? && msp.admin.value.name == name then msp.admin
    else if msp.peer.Some? && msp.peer.value.name == name then msp.peer
    else if msp.client.Some? && msp.client.value.name == name then msp.client
    else None
  }

  predicate CertifierFits(special: OU, ou: OU) {
    special.certifier == [] || special.certifier == ou.certifier
  }

  /** The positions of units that mark a role. */
  ghost function SpecialIndices(msp: Msp, ous: seq<OU>): set<nat> {
    set i: nat | i < |ous| && Special(msp, ous[i].name).Some?
  }

  /** Exactly one unit marks a role, and it has the certifier that role demands. */
  ghost predicate Classified(msp: Msp, ous: seq<OU>) {
    exists i :: 0 <= i < |ous| && SpecialIndices(msp, ous) == {i} && CertifierFits(Special(msp, ous[i].name).value, ous[i])
  }

  // -------------------------------------------------------------------------
  // The checks
  // -------------------------------------------------------------------------

  method ValidateV1(msp: Msp, ous: seq<OU>) returns (verdict: Verdict)
    ensures verdict == if Recognized(msp, ous) then Accepted else NoneRecognized
    ensures verdict == Accepted <==>
              || msp.recognized == map[]
              || exists i :: 0 <= i < |ous| && ous[i].name in msp.recognized && ous[i].certifier in msp.recognized[ous[i].name]
  {
    verdict := Accepted;
    if |msp.recognized| > 0 {
      var found := false;
      for i := 0 to |ous|
        invariant found <==> exists k :: 0 <= k < i && ous[k].name in msp.recognized && ous[k].certifier in msp.recognized[ous[k].name]
      {
        if ous[i].name in msp.recognized {
          var certifiers := msp.recognized[ous[i].name];
          var j := 0;
          var here := false;
          while j < |certifiers| && !here
            invariant 0 <= j <= |certifiers|
            invariant here <==> ous[i].certifier in certifiers[..j]
          {
            here := certifiers[j] == ous[i].certifier;
            j := j + 1;
          }
          assert here <==> ous[i].certifier in certifiers;
          found := found || here;
        }
      }
      if !found {
        verdict := NoneRecognized;
      }
    }
  }

  method SpecialUnits(msp: Msp) returns (valid: map<string, OU>)
    ensures forall name :: name in valid <==> Special(msp, name).Some?
    ensures forall name :: name in valid ==> Special(msp, name) == Some(valid[name])
  {
    valid := map[];
    if msp.client.Some? {
      valid := valid[msp.client.value.name := msp.client.value];
    }
    if msp.peer.Some? {
      valid := valid[msp.peer.value.name := msp.peer.value];
    }
    if msp.admin.Some? {
      valid := valid[msp.admin.value.name := msp.admin.value];
    }
    if msp.orderer.Some? {
      valid := valid[msp.orderer.value.name := msp.orderer.value];
    }
  }

  /** The roles in the order in which their units are entered; an earlier one gives way to a later of the same name. */
  function Rank(role: Role): nat {
    match role case Client => 0 case Peer => 1 case Admin => 2 case Orderer => 3 case Other => 4
  }

  ghost predicate Marks(msp: Msp, role: Role, name: string) {
    NodeOU(msp, role).Some? && NodeOU(msp, role).value.name == name
  }

  /** The last role that goes by this name, if any does. */
  ghost predicate LastMark(msp: Msp, role: Role, name: string) {
    Marks(msp, role, name) && forall r :: Marks(msp, r, name) ==> Rank(r) <= Rank(role)
  }

  lemma SpecialIsLast(msp: Msp, name: string)
    ensures Special(msp, name).Some? <==> exists role :: Marks(msp, role, name)
    ensures forall role :: LastMark(msp, role, name) ==> Special(msp, name) == NodeOU(msp, role)
    ensures Special(msp, name).Some? ==> exists role :: LastMark(msp, role, name)
  {
    forall role | Marks(msp, role, name) ensures Special(msp, name).Some? {
      match role case Client => case Peer => case Admin => case Orderer =>
    }
    if Special(msp, name).Some? {
      var role := if msp.orderer.Some? && msp.orderer.value.name == name then Orderer
                  else if msp.admin.Some? && msp.admin.value.name == name then Admin
                  else if msp.peer.Some? && msp.peer.value.name == name then Peer
                  else Client;
      forall r | Marks(msp, r, name) ensures Rank(r) <= Rank(role) {
        match r case Client => case Peer => case Admin => case Orderer =>
      }
      assert LastMark(msp, role, name);
    }
  }

  /** No unit but that at i has the name of a role. */
  ghost predicate OnlyMarked(msp: Msp, ous: seq<OU>, i: nat) {
    forall j, role :: 0 <= j < |ous| && Marks(msp, role, ous[j].name) ==> j == i
  }

  /**
   Classification in terms of roles: exactly one unit has the name of a role, and the last role of that name has
   no certifier or the unit's.
   */
  lemma ClassifiedByRole(msp: Msp, ous: seq<OU>)
    ensures Classified(msp, ous) <==>
            exists i, role ::
              && 0 <= i < |ous| && OnlyMarked(msp, ous, i) && LastMark(msp, role, ous[i].name)
              && (NodeOU(msp, role).value.certifier == [] || NodeOU(msp, role).value.certifier == ous[i].certifier)
  {
    if Classified(msp, ous) {
      var i :| 0 <= i < |ous| && SpecialIndices(msp, ous) == {i} && CertifierFits(Special(msp, ous[i].name).value, ous[i]);
      SpecialIsLast(msp, ous[i].name);
      SingledOut(msp, ous, i);
      var role :| LastMark(msp, role, ous[i].name);
    }
    if i, role :| && 0 <= i < |ous| && OnlyMarked(msp, ous, i) && LastMark(msp, role, ous[i].name)
                  && (NodeOU(msp, role).value.certifier == [] || NodeOU(msp, role).value.certifier == ous[i].certifier)
    {
      SpecialIsLast(msp, ous[i].name);
      SingledOut(msp, ous, i);
    }
  }

  lemma SingledOut(msp: Msp, ous: seq<OU>, i: nat)
    requires i < |ous|
    ensures SpecialIndices(msp, ous) == {i} <==> OnlyMarked(msp, ous, i) && exists role :: Marks(msp, role, ous[i].name)
  {
    forall j | 0 <= j < |ous| ensures j in SpecialIndices(msp, ous) <==> exists role :: Marks(msp, role, ous[j].name) {
      SpecialIsLast(msp, ous[j].name);
    }
    hide Special, Marks;
    if OnlyMarked(msp, ous, i) && exists role :: Marks(msp, role, ous[i].name) {
      assert SpecialIndices(msp, ous) == {i};
    }
  }

  /** Accepts exactly the identities whose units are recognized and, when enforced, single out one role. */
  method ValidateV143(msp: Msp, ous: seq<OU>) returns (verdict: Verdict)
    ensures verdict == Accepted <==> Recognized(msp, ous) && (msp.enforced ==> Classified(msp, ous))
    ensures verdict == NoneRecognized <==> !Recognized(msp, ous)
    ensures verdict == NotExactlyOne ==> forall i: nat :: SpecialIndices(msp, ous) != {i}
    ensures verdict == CertifierMismatch ==>
              exists i :: 0 <= i < |ous| && i in SpecialIndices(msp, ous) && !CertifierFits(Special(msp, ous[i].name).value, ous[i])
  {
    verdict := ValidateV1(msp, ous);
    if verdict != Accepted || !msp.enforced {
      return;
    }
    var counter := 0;
    var valid := SpecialUnits(msp);
    ghost var last := 0;
    var i := 0;
    while i < |ous| && counter <= 1
      invariant 0 <= i <= |ous| && 0 <= counter <= 2
      invariant counter == 0 ==> SpecialIndices(msp, ous[..i]) == {}
      invariant counter == 1 ==> last < i && SpecialIndices(msp, ous[..i]) == {last} && CertifierFits(Special(msp, ous[last].name).value, ous[last])
      invariant counter == 2 ==> exists j, k :: 0 <= j < k < |ous| && Special(msp, ous[j].name).Some? && Special(msp, ous[k].name).Some?
    {
      if ous[i].name in valid {
        var nodeOU := valid[ous[i].name];
        if |nodeOU.certifier| != 0 && nodeOU.certifier != ous[i].certifier {
          Mismatched(msp, ous, i);
          return CertifierMismatch;
        }
        OneMore(msp, ous, i);
        if counter == 1 {
          assert last in SpecialIndices(msp, ous[..i]);
        }
        counter := counter + 1;
        last := i;
      } else {
        NoMore(msp, ous, i);
      }
      i := i + 1;
    }
    assert ous[..|ous|] == ous;
    if counter != 1 {
      if counter == 2 {
        ghost var j, k :| 0 <= j < k < |ous| && Special(msp, ous[j].name).Some? && Special(msp, ous[k].name).Some?;
        assert j in SpecialIndices(msp, ous) && k in SpecialIndices(msp, ous);
      } else {
        assert forall n: nat :: {n} != {};
      }
      verdict := NotExactlyOne;
    }
  }

  lemma OneMore(msp: Msp, ous: seq<OU>, i: nat)
    requires i < |ous| && Special(msp, ous[i].name).Some?
    ensures SpecialIndices(msp, ous[..i + 1]) == SpecialIndices(msp, ous[..i]) + {i}
  {
    assert forall k: nat :: k < i ==> ous[..i + 1][k] == ous[..i][k];
  }

  lemma NoMore(msp: Msp, ous: seq<OU>, i: nat)
    requires i < |ous| && Special(msp, ous[i].name).None?
    ensures SpecialIndices(msp, ous[..i + 1]) == SpecialIndices(msp, ous[..i])
  {
    assert forall k: nat :: k < i ==> ous[..i + 1][k] == ous[..i][k];
  }

  lemma Mismatched(msp: Msp, ous: seq<OU>, i: nat)
    requires i < |ous| && Special(msp, ous[i].name).Some? && !CertifierFits(Special(msp, ous[i].name).value, ous[i])
    ensures !Classified(msp, ous)
  {
    assert i in SpecialIndices(msp, ous);
  }

  /** Whether the identity has the role: some unit of its has the name configured for it. */
  method HasOURole(msp: Msp, ous: seq<OU>, role: Role) returns (has: bool)
    ensures has <==> HoldsRole(msp, ous, role)
  {
    var nodeOU := NodeOU(msp, role);
    if nodeOU.None? {
      return false;
    }
    for i := 0 to |ous|
      invariant forall k :: 0 <= k < i ==> ous[k].name != nodeOU.value.name
    {
      if ous[i].name == nodeOU.value.name {
        return true;
      }
    }
    return false;
  }

  ghost predicate HoldsRole(msp: Msp, ous: seq<OU>, role: Role) {
    && NodeOU(msp, role).Some?
    && exists i :: 0 <= i < |ous| && ous[i].name == NodeOU(msp, role).value.name
  }

  /** An identity that is accepted under enforcement has a role, and all its roles go by the same name. */
  lemma OneRoleName(msp: Msp, ous: seq<OU>)
    requires Classified(msp, ous)
    ensures exists role :: HoldsRole(msp, ous, role)
    ensures forall r, q :: HoldsRole(msp, ous, r) && HoldsRole(msp, ous, q) ==> NodeOU(msp, r).value.name == NodeOU(msp, q).value.name
  {
    var i :| 0 <= i < |ous| && SpecialIndices(msp, ous) == {i};
    assert i in SpecialIndices(msp, ous);
    var role := RoleOf(msp, ous[i].name);
    assert HoldsRole(msp, ous, role);
    forall r | HoldsRole(msp, ous, r) ensures NodeOU(msp, r).value.name == ous[i].name {
      var k :| 0 <= k < |ous| && ous[k].name == NodeOU(msp, r).value.name;
      assert k in SpecialIndices(msp, ous);
    }
  }

  lemma RoleOf(msp: Msp, name: string) returns (role: Role)
    requires Special(msp, name).Some?
    ensures NodeOU(msp, role).Some? && NodeOU(msp, role).value.name == name
  {
    role := if msp.orderer.Some? && msp.orderer.value.name == name then Orderer
            else if msp.admin.Some? && msp.admin.value.name == name then Admin
            else if msp.peer.Some? && msp.peer.value.name == name then Peer
            else Client;
  }
}

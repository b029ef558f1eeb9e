/**
  Role identity for the Keycloak client reconciler: when two roles are
  "the same" role, and how one list of roles is split against another into
  the roles that have no counterpart and the roles that do.
 */
module Roles {

  /** A client role as the reconciler sees it. An `id` of `""` means that
      the role has no ID (it was written in the custom resource without one). */
  datatype Role = Role(id: string, name: string)

  const NoId: string := ""

  /** The value a Go map yields for a missing key: a role with neither ID nor name. */
  const ZeroRole: Role := Role(NoId, "")

  /** The identity rule: two roles that both carry an ID are the same role
      exactly when the IDs agree, whatever their names; otherwise the names decide. */
  predicate RoleMatches(a: Role, b: Role)
    // a matched pair never carries two different IDs
    ensures RoleMatches(a, b) ==> a.id == b.id || a.id == NoId || b.id == NoId
    // a matched pair with different names is matched by ID: a rename
    ensures RoleMatches(a, b) && a.name != b.name ==> a.id != NoId && a.id == b.id
    // every role matches itself
    ensures a == b ==> RoleMatches(a, b)
  {
    if a.id != NoId && b.id != NoId then a.id == b.id else a.name == b.name
  }

  /** Some role of `roles` matches `other`. */
  predicate HasMatch(roles: seq<Role>, other: Role)
  {
    exists k :: 0 <= k < |roles| && RoleMatches(roles[k], other)
  }

  /** A linear scan of `roles` that stops at the first role matching `other`. */
  method HasMatchingRole(roles: seq<Role>, other: Role) returns (found: bool)
    ensures found <==> HasMatch(roles, other)
  {
    for k := 0 to |roles|
      invariant forall j :: 0 <= j < k ==> !RoleMatches(roles[j], other)
    {
      if RoleMatches(roles[k], other) {
        return true;
      }
    }
    return false;
  }

  /** The roles of `a`, in order, that no role of `b` matches. */
  function Unmatched(a: seq<Role>, b: seq<Role>): seq<Role>
    decreases |a|
  {
    if a == [] then []
    else
      var last := a[|a| - 1];
      Unmatched(a[..|a| - 1], b) + (if HasMatch(b, last) then [] else [last])
  }

  /** The roles of `a`, in order, that some role of `b` matches. */
  function Matched(a: seq<Role>, b: seq<Role>): seq<Role>
    decreases |a|
  {
    if a == [] then []
    else
      var last := a[|a| - 1];
      Matched(a[..|a| - 1], b) + (if HasMatch(b, last) then [last] else [])
  }

  /** Splits `a` against `b`: `d` gets the roles of `a` without a match in
      `b`, `i` the roles of `a` with one; both keep the order of `a`. */
  method RoleDifferenceIntersection(a: seq<Role>, b: seq<Role>) returns (d: seq<Role>, i: seq<Role>)
    ensures d == Unmatched(a, b) && i == Matched(a, b)
  {
    d, i := [], [];
    for k := 0 to |a|
      invariant d == Unmatched(a[..k], b) && i == Matched(a[..k], b)
    {
      var role := a[k];
      assert a[..k + 1][..k] == a[..k];
      var matching := HasMatchingRole(b, role);
      if matching {
        i := i + [role];
      } else {
        d := d + [role];
      }
    }
    assert a[..|a|] == a;
  }

  // ---------------------------------------------------------------------
  // The identity rule

  /** Matching does not depend on the order of the two roles. */
  lemma RoleMatchesSymmetric(a: Role, b: Role)
    ensures RoleMatches(a, b) == RoleMatches(b, a)
  {
  }

  /** Two roles with the same ID match whatever their names: this is what
      lets the reconciler see a rename. */
  lemma SameIdMatchesAcrossRename(a: Role, b: Role)
    requires a.id != NoId && a.id == b.id
    ensures RoleMatches(a, b)
  {
  }

  /** A role without an ID matches by name alone, whatever ID the other carries. */
  lemma NoIdMatchesByName(a: Role, b: Role)
    requires a.id == NoId || b.id == NoId
    ensures RoleMatches(a, b) <==> a.name == b.name
  {
  }

  /** Matching is not transitive: a role without an ID bridges two roles
      whose different IDs keep them apart. */
  lemma RoleMatchesNotTransitive()
    ensures var a, b, c := Role("1", "r"), Role(NoId, "r"), Role("2", "r");
            RoleMatches(a, b) && RoleMatches(b, c) && !RoleMatches(a, c)
  {
  }

  // ---------------------------------------------------------------------
  // The partition

  lemma UnmatchedSnoc(a: seq<Role>, b: seq<Role>, x: Role)
    ensures Unmatched(a + [x], b) == Unmatched(a, b) + (if HasMatch(b, x) then [] else [x])
    ensures Matched(a + [x], b) == Matched(a, b) + (if HasMatch(b, x) then [x] else [])
  {
    assert (a + [x])[..|a|] == a;
  }

  /** Every role of `a` goes to exactly one side: the two sides together
      hold the roles of `a`, each as often as `a` does. */
  lemma {:induction false} PartitionIsPermutation(a: seq<Role>, b: seq<Role>)
    ensures |Unmatched(a, b)| + |Matched(a, b)| == |a|
    ensures multiset(Unmatched(a, b)) + multiset(Matched(a, b)) == multiset(a)
  {
    if a != [] {
      var init, last := a[..|a| - 1], a[|a| - 1];
      assert a == init + [last];
      PartitionIsPermutation(init, b);
      UnmatchedSnoc(init, b, last);
    }
  }

  /** How often a role appears on each side: on the matched side as often
      as in `a` when `b` has a match for it, on the unmatched side otherwise. */
  lemma {:induction false} PartitionCount(a: seq<Role>, b: seq<Role>, x: Role)
    ensures multiset(Matched(a, b))[x] == if HasMatch(b, x) then multiset(a)[x] else 0
    ensures multiset(Unmatched(a, b))[x] == if HasMatch(b, x) then 0 else multiset(a)[x]
  {
    if a != [] {
      var init, last := a[..|a| - 1], a[|a| - 1];
      assert a == init + [last];
      PartitionCount(init, b, x);
      UnmatchedSnoc(init, b, last);
    }
  }

  /** The partition criterion: a role is returned as matched exactly when it
      is a role of `a` that `b` matches, and as unmatched exactly when it is a
      role of `a` that `b` does not match. Returned roles always come from `a`. */
  lemma PartitionCriterion(a: seq<Role>, b: seq<Role>, x: Role)
    ensures x in Matched(a, b) <==> x in a && HasMatch(b, x)
    ensures x in Unmatched(a, b) <==> x in a && !HasMatch(b, x)
    ensures !(x in Matched(a, b) && x in Unmatched(a, b))
  {
    PartitionCount(a, b, x);
  }

  /** The partition criterion for all roles at once. */
  lemma PartitionMembers(a: seq<Role>, b: seq<Role>)
    ensures forall x :: x in Unmatched(a, b) ==> x in a && !HasMatch(b, x)
    ensures forall x :: x in Matched(a, b) ==> x in a && HasMatch(b, x)
  {
    forall x | x in Unmatched(a, b) || x in Matched(a, b)
      ensures x in Unmatched(a, b) ==> x in a && !HasMatch(b, x)
      ensures x in Matched(a, b) ==> x in a && HasMatch(b, x)
    {
      PartitionCriterion(a, b, x);
    }
  }

  /** Both sides keep the order of `a`: splitting `a` anywhere and
      partitioning the two halves gives the partition of `a`, half after half. */
  lemma {:induction false} PartitionKeepsOrder(a1: seq<Role>, a2: seq<Role>, b: seq<Role>)
    ensures Unmatched(a1 + a2, b) == Unmatched(a1, b) + Unmatched(a2, b)
    ensures Matched(a1 + a2, b) == Matched(a1, b) + Matched(a2, b)
    decreases |a2|
  {
    if a2 == [] {
      assert a1 + a2 == a1;
    } else {
      var init, last := a2[..|a2| - 1], a2[|a2| - 1];
      assert a2 == init + [last];
      assert a1 + a2 == (a1 + init) + [last];
      PartitionKeepsOrder(a1, init, b);
      UnmatchedSnoc(a1 + init, b, last);
      UnmatchedSnoc(init, b, last);
    }
  }

  /** Every role has a match in any list that contains it. */
  lemma MemberHasMatch(b: seq<Role>, x: Role)
    requires x in b
    ensures HasMatch(b, x)
  {
    var k :| 0 <= k < |b| && b[k] == x;
    assert RoleMatches(b[k], x);
  }

  /** Against itself, a list has no unmatched roles and every role is matched. */
  lemma {:induction false} PartitionAgainstSelf(a: seq<Role>, b: seq<Role>)
    requires forall x :: x in a ==> x in b
    ensures Unmatched(a, b) == [] && Matched(a, b) == a
  {
    if a != [] {
      var init, last := a[..|a| - 1], a[|a| - 1];
      assert a == init + [last];
      PartitionAgainstSelf(init, b);
      MemberHasMatch(b, last);
      UnmatchedSnoc(init, b, last);
    }
  }
}

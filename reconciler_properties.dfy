/**
  What the role actions of the Keycloak client reconciler mean. The phased
  definition `RoleActions` is compared with a per-role reference
  classification `ActionFor`, which says for one desired role, on its own,
  which action it must produce.
 */
module ReconcilerProperties {
  import opened Roles
  import opened Reconciler

  // ---------------------------------------------------------------------
  // The per-role reference classification

  /** Desired role `y` carries an ID, matches an observed role, and its ID
      leads to an observed role whose name `n` differs from the one `y` asks for. */
  predicate RenamesAway(observed: seq<Role>, y: Role, n: string)
  {
    var oldRole := LookupById(IndexById(observed), y.id);
    HasMatch(observed, y) && y.id != NoId && y.name != oldRole.name && oldRole.name == n
  }

  /** Some desired role renames the observed name `n` away. */
  predicate NameVacated(observed: seq<Role>, desired: seq<Role>, n: string)
  {
    exists k :: 0 <= k < |desired| && RenamesAway(observed, desired[k], n)
  }

  /** The action one desired role must produce:
      no observed match: create it;
      matched, with an ID: update it, paired with the observed role of that ID;
      matched, without an ID, its name renamed away: create it;
      matched, without an ID, otherwise: update it, paired with itself. */
  function ActionFor(observed: seq<Role>, desired: seq<Role>, x: Role): Action
  {
    if !HasMatch(observed, x) then CreateRole(x)
    else if x.id != NoId then UpdateRole(x, LookupById(IndexById(observed), x.id))
    else if NameVacated(observed, desired, x.name) then CreateRole(x)
    else UpdateRole(x, x)
  }

  function ActionsFor(observed: seq<Role>, desired: seq<Role>, xs: seq<Role>): seq<Action>
  {
    seq(|xs|, k requires 0 <= k < |xs| => ActionFor(observed, desired, xs[k]))
  }

  /** The roles an action names. */
  predicate Mentions(a: Action, x: Role)
  {
    match a
    case CreateRole(r) => r == x
    case UpdateRole(r, o) => r == x || o == x
    case DeleteRole(r) => r == x
    case _ => false
  }

  /** Observed roles carry pairwise different IDs (roles without an ID aside). */
  predicate UniqueIds(roles: seq<Role>)
  {
    forall j, k :: 0 <= j < |roles| && 0 <= k < |roles| && roles[j].id != NoId && roles[j].id == roles[k].id ==> j == k
  }

  // ---------------------------------------------------------------------
  // Unfolding helpers

  lemma ActionsForSnoc(observed: seq<Role>, desired: seq<Role>, xs: seq<Role>, x: Role)
    ensures ActionsFor(observed, desired, xs + [x]) == ActionsFor(observed, desired, xs) + [ActionFor(observed, desired, x)]
  {
  }

  lemma PhasesAppend(m: seq<Role>, x: Role, byId: map<string, Role>, renamed: set<string>)
    ensures IdUpdates(m + [x], byId) == IdUpdates(m, byId)
      + (if x.id != NoId then [UpdateRole(x, LookupById(byId, x.id))] else [])
    ensures RenamedOldNames(m + [x], byId) == RenamedOldNames(m, byId)
      + (if x.id != NoId && x.name != LookupById(byId, x.id).name
         then {LookupById(byId, x.id).name} else {})
    ensures IdlessActions(m + [x], renamed) == IdlessActions(m, renamed)
      + (if x.id != NoId then []
         else if x.name in renamed then [CreateRole(x)]
         else [UpdateRole(x, x)])
    ensures CreateActions(m + [x]) == CreateActions(m) + [CreateRole(x)]
  {
    assert (m + [x])[..|m|] == m;
  }

  // ---------------------------------------------------------------------
  // The ID index and the renamed names

  /** The index holds exactly the IDs of the observed roles, and for each
      the last observed role that carries it. */
  lemma {:induction false} IndexByIdLastWins(roles: seq<Role>, id: string)
    ensures id in IndexById(roles) <==> exists k :: 0 <= k < |roles| && roles[k].id == id
    ensures id in IndexById(roles) ==>
      exists k :: 0 <= k < |roles| && roles[k] == IndexById(roles)[id] && roles[k].id == id &&
        forall l :: k < l < |roles| ==> roles[l].id != id
  {
    if roles != [] {
      var init, last := roles[..|roles| - 1], roles[|roles| - 1];
      assert roles == init + [last];
      IndexByIdLastWins(init, id);
      if id != last.id {
        if id in IndexById(init) {
          var k :| 0 <= k < |init| && init[k] == IndexById(init)[id] && init[k].id == id &&
            forall l :: k < l < |init| ==> init[l].id != id;
          assert roles[k] == IndexById(roles)[id];
        }
      } else {
        assert roles[|roles| - 1].id == id;
      }
    }
  }

  /** The looked-up role of a desired role either carries the same ID or is the zero role. */
  lemma LookupByIdIsSameIdOrZero(roles: seq<Role>, id: string)
    ensures LookupById(IndexById(roles), id) == ZeroRole || LookupById(IndexById(roles), id).id == id
    ensures (exists k :: 0 <= k < |roles| && roles[k].id == id) ==> LookupById(IndexById(roles), id) in roles
  {
    IndexByIdLastWins(roles, id);
  }

  lemma NameVacatedSnoc(observed: seq<Role>, xs: seq<Role>, x: Role, n: string)
    ensures NameVacated(observed, xs + [x], n) <==> NameVacated(observed, xs, n) || RenamesAway(observed, x, n)
  {
    var ys := xs + [x];
    if NameVacated(observed, ys, n) {
      var k :| 0 <= k < |ys| && RenamesAway(observed, ys[k], n);
      if k < |xs| {
        assert xs[k] == ys[k];
      }
    }
    if NameVacated(observed, xs, n) {
      var k :| 0 <= k < |xs| && RenamesAway(observed, xs[k], n);
      assert ys[k] == xs[k];
    }
    if RenamesAway(observed, x, n) {
      assert ys[|xs|] == x;
    }
  }

  lemma RenamedOldNamesSnoc(observed: seq<Role>, xs: seq<Role>, x: Role, n: string)
    ensures var byId := IndexById(observed);
      n in RenamedOldNames(Matched(xs + [x], observed), byId)
      <==> n in RenamedOldNames(Matched(xs, observed), byId) || RenamesAway(observed, x, n)
  {
    var byId := IndexById(observed);
    var m := Matched(xs, observed);
    UnmatchedSnoc(xs, observed, x);
    if HasMatch(observed, x) {
      PhasesAppend(m, x, byId, {});
      assert RenamedOldNames(Matched(xs + [x], observed), byId) == RenamedOldNames(m, byId)
        + (if x.id != NoId && x.name != LookupById(byId, x.id).name
           then {LookupById(byId, x.id).name} else {});
    } else {
      assert Matched(xs + [x], observed) == m;
    }
  }

  /** An old name is recorded as renamed exactly when some matched desired
      role with an ID asks for a different name than the observed role its ID leads to. */
  lemma {:induction false} RenamedOldNamesIff(observed: seq<Role>, xs: seq<Role>, n: string)
    ensures n in RenamedOldNames(Matched(xs, observed), IndexById(observed))
      <==> NameVacated(observed, xs, n)
  {
    if xs != [] {
      var init, x := xs[..|xs| - 1], xs[|xs| - 1];
      assert xs == init + [x];
      RenamedOldNamesIff(observed, init, n);
      RenamedOldNamesSnoc(observed, init, x, n);
      NameVacatedSnoc(observed, init, x, n);
    }
  }

  // ---------------------------------------------------------------------
  // Phased actions against the per-role classification

  /** The actions of the update, ID-less and create phases for the desired roles `xs`. */
  function LaterPhases(observed: seq<Role>, desired: seq<Role>, xs: seq<Role>): multiset<Action>
  {
    var byId := IndexById(observed);
    var renamed := RenamedOldNames(Matched(desired, observed), byId);
    multiset(IdUpdates(Matched(xs, observed), byId))
      + multiset(IdlessActions(Matched(xs, observed), renamed))
      + multiset(CreateActions(Unmatched(xs, observed)))
  }

  lemma LaterPhasesSnocUnmatched(observed: seq<Role>, desired: seq<Role>, xs: seq<Role>, x: Role)
    requires !HasMatch(observed, x)
    ensures LaterPhases(observed, desired, xs + [x])
      == LaterPhases(observed, desired, xs) + multiset{CreateRole(x)}
  {
    var u := Unmatched(xs, observed);
    UnmatchedSnoc(xs, observed, x);
    assert Matched(xs + [x], observed) == Matched(xs, observed);
    assert CreateActions(u + [x]) == CreateActions(u) + [CreateRole(x)];
  }

  lemma LaterPhasesSnocWithId(observed: seq<Role>, desired: seq<Role>, xs: seq<Role>, x: Role)
    requires HasMatch(observed, x) && x.id != NoId
    ensures LaterPhases(observed, desired, xs + [x])
      == LaterPhases(observed, desired, xs) + multiset{UpdateRole(x, LookupById(IndexById(observed), x.id))}
  {
    var byId := IndexById(observed);
    var renamed := RenamedOldNames(Matched(desired, observed), byId);
    var m := Matched(xs, observed);
    UnmatchedSnoc(xs, observed, x);
    assert Matched(xs + [x], observed) == m + [x];
    assert Unmatched(xs + [x], observed) == Unmatched(xs, observed);
    PhasesAppend(m, x, byId, renamed);
    assert IdlessActions(m + [x], renamed) == IdlessActions(m, renamed);
    assert IdUpdates(m + [x], byId) == IdUpdates(m, byId) + [UpdateRole(x, LookupById(byId, x.id))];
  }

  lemma LaterPhasesSnocRenamed(observed: seq<Role>, desired: seq<Role>, xs: seq<Role>, x: Role)
    requires HasMatch(observed, x) && x.id == NoId
    ensures var renamed := RenamedOldNames(Matched(desired, observed), IndexById(observed));
      LaterPhases(observed, desired, xs + [x])
      == LaterPhases(observed, desired, xs)
         + multiset{if x.name in renamed then CreateRole(x) else UpdateRole(x, x)}
  {
    var byId := IndexById(observed);
    var renamed := RenamedOldNames(Matched(desired, observed), byId);
    var m := Matched(xs, observed);
    UnmatchedSnoc(xs, observed, x);
    assert Matched(xs + [x], observed) == m + [x];
    assert Unmatched(xs + [x], observed) == Unmatched(xs, observed);
    PhasesAppend(m, x, byId, renamed);
    assert IdUpdates(m + [x], byId) == IdUpdates(m, byId);
  }

  lemma LaterPhasesSnocWithoutId(observed: seq<Role>, desired: seq<Role>, xs: seq<Role>, x: Role)
    requires HasMatch(observed, x) && x.id == NoId
    ensures LaterPhases(observed, desired, xs + [x])
      == LaterPhases(observed, desired, xs)
         + multiset{if NameVacated(observed, desired, x.name) then CreateRole(x) else UpdateRole(x, x)}
  {
    LaterPhasesSnocRenamed(observed, desired, xs, x);
    RenamedOldNamesIff(observed, desired, x.name);
  }

  lemma LaterPhasesSnoc(observed: seq<Role>, desired: seq<Role>, xs: seq<Role>, x: Role)
    ensures LaterPhases(observed, desired, xs + [x])
      == LaterPhases(observed, desired, xs) + multiset{ActionFor(observed, desired, x)}
  {
    if !HasMatch(observed, x) {
      LaterPhasesSnocUnmatched(observed, desired, xs, x);
    } else if x.id != NoId {
      LaterPhasesSnocWithId(observed, desired, xs, x);
    } else {
      LaterPhasesSnocWithoutId(observed, desired, xs, x);
    }
  }

  /** The update, ID-less and create phases together hold, for each desired
      role, exactly the action `ActionFor` assigns it. */
  lemma {:induction false} PhasesPerRole(observed: seq<Role>, desired: seq<Role>, xs: seq<Role>)
    ensures LaterPhases(observed, desired, xs) == multiset(ActionsFor(observed, desired, xs))
  {
    if xs == [] {
      assert ActionsFor(observed, desired, xs) == [];
    } else {
      var init, x := xs[..|xs| - 1], xs[|xs| - 1];
      assert xs == init + [x];
      PhasesPerRole(observed, desired, init);
      LaterPhasesSnoc(observed, desired, init, x);
      ActionsForSnoc(observed, desired, init, x);
    }
  }

  /** The role actions are the deletes of the unmatched observed roles plus,
      for every desired role, the one action `ActionFor` assigns it. */
  lemma RoleActionsPerRole(observed: seq<Role>, desired: seq<Role>)
    ensures multiset(RoleActions(observed, desired))
      == multiset(DeleteActions(Unmatched(observed, desired))) + multiset(ActionsFor(observed, desired, desired))
  {
    PhasesPerRole(observed, desired, desired);
  }

  lemma {:induction false} ActionsForCount(observed: seq<Role>, desired: seq<Role>, xs: seq<Role>, x: Role)
    ensures multiset(ActionsFor(observed, desired, xs))[ActionFor(observed, desired, x)] == multiset(xs)[x]
    ensures forall a :: a in ActionsFor(observed, desired, xs) ==> !a.DeleteRole?
  {
    if xs != [] {
      var init, y := xs[..|xs| - 1], xs[|xs| - 1];
      assert xs == init + [y];
      ActionsForCount(observed, desired, init, x);
      ActionsForSnoc(observed, desired, init, y);
      assert ActionFor(observed, desired, y).role == y;
      assert ActionFor(observed, desired, x).role == x;
    } else {
      assert ActionsFor(observed, desired, xs) == [];
    }
  }

  lemma {:induction false} DeleteActionsCount(roles: seq<Role>, x: Role)
    ensures multiset(DeleteActions(roles))[DeleteRole(x)] == multiset(roles)[x]
  {
    if roles != [] {
      var init, y := roles[..|roles| - 1], roles[|roles| - 1];
      assert roles == init + [y];
      DeleteActionsCount(init, x);
      assert DeleteActions(roles) == DeleteActions(init) + [DeleteRole(y)];
    }
  }

  // ---------------------------------------------------------------------
  // Counting and classification

  /** Every desired role produces exactly one role action (one per occurrence),
      and it is the action `ActionFor` classifies it to. */
  lemma EachDesiredRoleOneAction(observed: seq<Role>, desired: seq<Role>, x: Role)
    ensures multiset(RoleActions(observed, desired))[ActionFor(observed, desired, x)] == multiset(desired)[x]
  {
    RoleActionsPerRole(observed, desired);
    ActionsForCount(observed, desired, desired, x);
    assert ActionFor(observed, desired, x) !in DeleteActions(Unmatched(observed, desired));
  }

  /** Each observed role that no desired role matches yields exactly one delete
      carrying it (one per occurrence); a matched observed role yields none. */
  lemma DeletesForUnmatchedObserved(observed: seq<Role>, desired: seq<Role>, x: Role)
    ensures multiset(RoleActions(observed, desired))[DeleteRole(x)]
      == if HasMatch(desired, x) then 0 else multiset(observed)[x]
  {
    var deletes := DeleteActions(Unmatched(observed, desired));
    var acts := ActionsFor(observed, desired, desired);
    RoleActionsPerRole(observed, desired);
    ActionsForCount(observed, desired, desired, x);
    assert multiset(acts)[DeleteRole(x)] == 0;
    DeleteActionsCount(Unmatched(observed, desired), x);
    PartitionCount(observed, desired, x);
    assert multiset(RoleActions(observed, desired))[DeleteRole(x)] == multiset(deletes)[DeleteRole(x)];
  }

  /** Each desired role that matches no observed role yields exactly one create. */
  lemma CreatesForUnmatchedDesired(observed: seq<Role>, desired: seq<Role>, x: Role)
    requires !HasMatch(observed, x)
    ensures multiset(RoleActions(observed, desired))[CreateRole(x)] == multiset(desired)[x]
  {
    EachDesiredRoleOneAction(observed, desired, x);
  }

  /** A matched desired role with an ID yields one update, paired with the
      last observed role of that ID, or with the zero role when no observed
      role has that ID (it matched an ID-less observed role by name). */
  lemma IdMatchedRoleUpdate(observed: seq<Role>, desired: seq<Role>, x: Role)
    requires HasMatch(observed, x) && x.id != NoId
    ensures var oldRole := LookupById(IndexById(observed), x.id);
      && multiset(RoleActions(observed, desired))[UpdateRole(x, oldRole)] == multiset(desired)[x]
      && (oldRole == ZeroRole || oldRole.id == x.id)
      && ((exists k :: 0 <= k < |observed| && observed[k].id == x.id) ==> oldRole in observed)
      && (!(exists k :: 0 <= k < |observed| && observed[k].id == x.id) ==> oldRole == ZeroRole)
  {
    EachDesiredRoleOneAction(observed, desired, x);
    LookupByIdIsSameIdOrZero(observed, x.id);
    IndexByIdLastWins(observed, x.id);
  }

  /** A matched desired role without an ID yields one create when some
      ID-matched desired role renamed its name away, and one self-paired
      update otherwise. */
  lemma IdlessMatchedRole(observed: seq<Role>, desired: seq<Role>, x: Role)
    requires HasMatch(observed, x) && x.id == NoId
    ensures NameVacated(observed, desired, x.name) ==>
      multiset(RoleActions(observed, desired))[CreateRole(x)] == multiset(desired)[x]
    ensures !NameVacated(observed, desired, x.name) ==>
      multiset(RoleActions(observed, desired))[UpdateRole(x, x)] == multiset(desired)[x]
  {
    EachDesiredRoleOneAction(observed, desired, x);
  }

  /** The number of role actions is the number of unmatched observed roles
      plus the number of desired roles. */
  lemma RoleActionCount(observed: seq<Role>, desired: seq<Role>)
    ensures |RoleActions(observed, desired)| == |Unmatched(observed, desired)| + |desired|
  {
    RoleActionsPerRole(observed, desired);
    assert |multiset(RoleActions(observed, desired))| == |RoleActions(observed, desired)|;
  }

  /** Every role action is a delete of an unmatched observed role or the
      classified action of some desired role. */
  lemma RoleActionsMember(observed: seq<Role>, desired: seq<Role>, a: Action)
    requires a in RoleActions(observed, desired)
    ensures a in DeleteActions(Unmatched(observed, desired))
      || exists k :: 0 <= k < |desired| && a == ActionFor(observed, desired, desired[k])
  {
    RoleActionsPerRole(observed, desired);
    assert a in multiset(RoleActions(observed, desired));
    var acts := ActionsFor(observed, desired, desired);
    if a !in DeleteActions(Unmatched(observed, desired)) {
      assert a in multiset(acts);
      var k :| 0 <= k < |acts| && acts[k] == a;
    }
  }

  lemma ActionForDoesNotMention(observed: seq<Role>, desired: seq<Role>, k: nat, x: Role)
    requires k < |desired| && !HasMatch(desired, x) && x != ZeroRole
    ensures !Mentions(ActionFor(observed, desired, desired[k]), x)
  {
    var y := desired[k];
    LookupByIdIsSameIdOrZero(observed, y.id);
    assert !RoleMatches(desired[k], x);
  }

  /** A deleted observed role is named by no other action, unless it is the
      zero role, which a failed ID lookup also produces. */
  lemma DeletedRoleOnlyDeleted(observed: seq<Role>, desired: seq<Role>, x: Role, a: Action)
    requires !HasMatch(desired, x) && x != ZeroRole
    requires a in RoleActions(observed, desired) && a != DeleteRole(x)
    ensures !Mentions(a, x)
  {
    RoleActionsMember(observed, desired, a);
    if a !in DeleteActions(Unmatched(observed, desired)) {
      var k :| 0 <= k < |desired| && a == ActionFor(observed, desired, desired[k]);
      ActionForDoesNotMention(observed, desired, k, x);
    }
  }

  /** With distinct observed IDs, an observed role classified against desired
      roles that all occur among the observed ones is a self-paired update. */
  lemma SelfActionFor(observed: seq<Role>, desired: seq<Role>, x: Role)
    requires UniqueIds(observed) && x in observed
    requires forall y :: y in desired ==> y in observed
    ensures ActionFor(observed, desired, x) == UpdateRole(x, x)
  {
    MemberHasMatch(observed, x);
    SelfLookup(observed, x);
    if NameVacated(observed, desired, x.name) {
      var k :| 0 <= k < |desired| && RenamesAway(observed, desired[k], x.name);
      SelfLookup(observed, desired[k]);
    }
  }

  /** One self-paired update per role, in order. */
  function SelfUpdates(roles: seq<Role>): seq<Action>
  {
    seq(|roles|, k requires 0 <= k < |roles| => UpdateRole(roles[k], roles[k]))
  }

  /** Lists with the same multiset hold the same roles. */
  lemma SameMembers(a: seq<Role>, b: seq<Role>)
    requires multiset(a) == multiset(b)
    ensures forall y :: y in a <==> y in b
  {
    forall y
      ensures y in a <==> y in b
    {
      assert y in a <==> y in multiset(a);
      assert y in b <==> y in multiset(b);
    }
  }

  /** Against observed roles with distinct IDs that hold them all, every
      desired role is classified as a self-paired update. */
  lemma SelfActionsFor(observed: seq<Role>, desired: seq<Role>)
    requires UniqueIds(observed) && forall y :: y in desired ==> y in observed
    ensures ActionsFor(observed, desired, desired) == SelfUpdates(desired)
  {
    var acts := ActionsFor(observed, desired, desired);
    forall k | 0 <= k < |desired|
      ensures acts[k] == SelfUpdates(desired)[k]
    {
      SelfActionFor(observed, desired, desired[k]);
    }
  }

  /** Every element of `SelfUpdates` is a self-paired update. */
  lemma SelfUpdatesAreSelf(roles: seq<Role>, a: Action)
    requires a in multiset(SelfUpdates(roles))
    ensures a.UpdateRole? && a.oldRole == a.role
  {
    var k :| 0 <= k < |roles| && SelfUpdates(roles)[k] == a;
  }

  /** Reconciling desired roles that are the observed ones, in any order, with
      distinct observed IDs changes nothing: exactly one self-paired update per
      role (as a multiset), no creates or deletes. */
  lemma NoOpAllSelfUpdates(observed: seq<Role>, desired: seq<Role>)
    requires UniqueIds(observed) && multiset(desired) == multiset(observed)
    ensures multiset(RoleActions(observed, desired)) == multiset(SelfUpdates(desired))
    ensures |RoleActions(observed, desired)| == |desired|
    ensures forall a :: a in RoleActions(observed, desired) ==> a.UpdateRole? && a.oldRole == a.role
  {
    SameMembers(desired, observed);
    PartitionAgainstSelf(observed, desired);
    assert DeleteActions(Unmatched(observed, desired)) == [];
    SelfActionsFor(observed, desired);
    RoleActionsPerRole(observed, desired);
    RoleActionCount(observed, desired);
    forall a | a in RoleActions(observed, desired)
      ensures a.UpdateRole? && a.oldRole == a.role
    {
      assert a in multiset(RoleActions(observed, desired));
      SelfUpdatesAreSelf(desired, a);
    }
  }

  /** With distinct IDs, an observed role's ID leads back to that role. */
  lemma SelfLookup(roles: seq<Role>, x: Role)
    requires UniqueIds(roles) && x in roles
    ensures x.id != NoId ==> LookupById(IndexById(roles), x.id) == x
  {
    if x.id != NoId {
      var j :| 0 <= j < |roles| && roles[j] == x;
      IndexByIdLastWins(roles, x.id);
    }
  }

  // ---------------------------------------------------------------------
  // Order

  /** The phase an action belongs to: deletes, ID-matched updates, ID-less
      matched roles, creates of unmatched desired roles. */
  function Phase(observed: seq<Role>, a: Action): nat
  {
    match a
    case DeleteRole(_) => 0
    case UpdateRole(r, _) => if r.id != NoId then 1 else 2
    case CreateRole(r) => if HasMatch(observed, r) then 2 else 3
    case _ => 4
  }

  predicate PhaseOrdered(observed: seq<Role>, s: seq<Action>)
  {
    forall j, k :: 0 <= j < k < |s| ==> Phase(observed, s[j]) <= Phase(observed, s[k])
  }

  predicate AllInPhase(observed: seq<Role>, s: seq<Action>, p: nat)
  {
    forall k :: 0 <= k < |s| ==> Phase(observed, s[k]) == p
  }

  lemma {:induction false} IdUpdatesPhase(observed: seq<Role>, m: seq<Role>, byId: map<string, Role>)
    ensures AllInPhase(observed, IdUpdates(m, byId), 1)
  {
    if m != [] {
      var init, x := m[..|m| - 1], m[|m| - 1];
      assert m == init + [x];
      IdUpdatesPhase(observed, init, byId);
      PhasesAppend(init, x, byId, {});
    }
  }

  lemma {:induction false} IdlessActionsPhase(observed: seq<Role>, m: seq<Role>, renamed: set<string>)
    requires forall x :: x in m ==> HasMatch(observed, x)
    ensures AllInPhase(observed, IdlessActions(m, renamed), 2)
  {
    if m != [] {
      var init, x := m[..|m| - 1], m[|m| - 1];
      assert m == init + [x];
      IdlessActionsPhase(observed, init, renamed);
      PhasesAppend(init, x, map[], renamed);
    }
  }

  lemma PhaseConcat(observed: seq<Role>, s: seq<Action>, t: seq<Action>, p: nat)
    requires PhaseOrdered(observed, s) && AllInPhase(observed, t, p)
    requires forall k :: 0 <= k < |s| ==> Phase(observed, s[k]) <= p
    ensures PhaseOrdered(observed, s + t)
    ensures forall k :: 0 <= k < |s + t| ==> Phase(observed, (s + t)[k]) <= p
  {
  }

  /** The role actions come in four blocks: deletes, then ID-matched
      updates, then the actions of ID-less matched roles, then creates of the
      desired roles without a match. */
  lemma RoleActionsOrdered(observed: seq<Role>, desired: seq<Role>)
    ensures PhaseOrdered(observed, RoleActions(observed, desired))
  {
    var byId := IndexById(observed);
    var m := Matched(desired, observed);
    var d := DeleteActions(Unmatched(observed, desired));
    var u := IdUpdates(m, byId);
    var l := IdlessActions(m, RenamedOldNames(m, byId));
    var c := CreateActions(Unmatched(desired, observed));
    assert AllInPhase(observed, d, 0);
    IdUpdatesPhase(observed, m, byId);
    forall x | x in m
      ensures HasMatch(observed, x)
    {
      PartitionCriterion(desired, observed, x);
    }
    IdlessActionsPhase(observed, m, RenamedOldNames(m, byId));
    forall k | 0 <= k < |c|
      ensures Phase(observed, c[k]) == 3
    {
      PartitionCriterion(desired, observed, Unmatched(desired, observed)[k]);
    }
    PhaseConcat(observed, d, u, 1);
    PhaseConcat(observed, d + u, l, 2);
    PhaseConcat(observed, d + u + l, c, 3);
  }

  // ---------------------------------------------------------------------
  // Worked examples

  /** A rename: observed {1,a} and desired {1,b} give a single update from the old role. */
  lemma RenameExample()
    ensures RoleActions([Role("1", "a")], [Role("1", "b")])
      == [UpdateRole(Role("1", "b"), Role("1", "a"))]
  {
    var observed, desired := [Role("1", "a")], [Role("1", "b")];
    assert RoleMatches(desired[0], observed[0]);
    assert Unmatched(observed, desired) == [];
    assert Matched(desired, observed) == desired;
    assert Unmatched(desired, observed) == [];
  }

  lemma NameReusePartition()
    ensures var observed, desired := [Role("1", "a")], [Role("1", "b"), Role(NoId, "a")];
      && Unmatched(observed, desired) == []
      && Matched(desired, observed) == desired
      && Unmatched(desired, observed) == []
  {
    var observed := [Role("1", "a")];
    var renamed, reused := Role("1", "b"), Role(NoId, "a");
    var desired := [renamed, reused];
    assert desired == [renamed] + [reused];
    assert [renamed] == [] + [renamed];
    assert observed == [] + [Role("1", "a")];
    assert RoleMatches(observed[0], renamed) && RoleMatches(renamed, observed[0]);
    assert RoleMatches(observed[0], reused);
    assert RoleMatches(desired[0], observed[0]);
    UnmatchedSnoc([], desired, observed[0]);
    UnmatchedSnoc([], observed, renamed);
    UnmatchedSnoc([renamed], observed, reused);
  }

  lemma NameReusePhases()
    ensures var byId := IndexById([Role("1", "a")]);
      var desired := [Role("1", "b"), Role(NoId, "a")];
      && RenamedOldNames(desired, byId) == {"a"}
      && IdUpdates(desired, byId) == [UpdateRole(Role("1", "b"), Role("1", "a"))]
      && IdlessActions(desired, {"a"}) == [CreateRole(Role(NoId, "a"))]
  {
    var observed := [Role("1", "a")];
    var renamed, reused := Role("1", "b"), Role(NoId, "a");
    var desired := [renamed, reused];
    assert desired == [renamed] + [reused];
    assert [renamed] == [] + [renamed];
    assert observed == [] + [Role("1", "a")];
    var byId := IndexById(observed);
    assert byId == map["1" := Role("1", "a")];
    PhasesAppend([], renamed, byId, {"a"});
    PhasesAppend([renamed], reused, byId, {"a"});
  }

  /** A rename plus reuse of the old name: observed {1,a} with desired {1,b}
      and {"",a} give the update for the rename and then a create for the new
      role named a, not an update. */
  lemma RenameWithNameReuseExample()
    ensures RoleActions([Role("1", "a")], [Role("1", "b"), Role(NoId, "a")])
      == [UpdateRole(Role("1", "b"), Role("1", "a")), CreateRole(Role(NoId, "a"))]
  {
    var observed, desired := [Role("1", "a")], [Role("1", "b"), Role(NoId, "a")];
    NameReusePartition();
    NameReusePhases();
    assert DeleteActions([]) == [] && CreateActions([]) == [];
    RoleActionsByPhases(observed, desired, [], desired, IndexById(observed), {"a"}, []);
  }

  lemma ZeroRolePartition()
    ensures var observed, desired := [ZeroRole, Role(NoId, "a")], [Role("7", "a")];
      && Unmatched(observed, desired) == [ZeroRole]
      && Matched(desired, observed) == desired
      && Unmatched(desired, observed) == []
  {
    var named, wanted := Role(NoId, "a"), Role("7", "a");
    var observed, desired := [ZeroRole, named], [wanted];
    assert observed == [ZeroRole] + [named] && [ZeroRole] == [] + [ZeroRole];
    assert desired == [] + [wanted];
    assert RoleMatches(named, wanted);
    assert RoleMatches(desired[0], named);
    assert !RoleMatches(wanted, ZeroRole);
    assert !HasMatch(desired, ZeroRole);
    UnmatchedSnoc([], desired, ZeroRole);
    UnmatchedSnoc([ZeroRole], desired, named);
    assert HasMatch(observed, wanted);
    UnmatchedSnoc([], observed, wanted);
  }

  lemma ZeroRoleIndex()
    ensures "7" !in IndexById([ZeroRole, Role(NoId, "a")])
  {
    var observed := [ZeroRole, Role(NoId, "a")];
    assert observed == [ZeroRole] + [Role(NoId, "a")] && [ZeroRole] == [] + [ZeroRole];
    assert IndexById([ZeroRole]) == map[NoId := ZeroRole];
    assert IndexById(observed) == IndexById([ZeroRole])[NoId := Role(NoId, "a")];
  }

  lemma ZeroRolePhases()
    ensures var byId := IndexById([ZeroRole, Role(NoId, "a")]);
      && RenamedOldNames([Role("7", "a")], byId) == {""}
      && IdUpdates([Role("7", "a")], byId) == [UpdateRole(Role("7", "a"), ZeroRole)]
      && IdlessActions([Role("7", "a")], {""}) == []
  {
    var wanted := Role("7", "a");
    var byId := IndexById([ZeroRole, Role(NoId, "a")]);
    ZeroRoleIndex();
    assert [wanted] == [] + [wanted];
    PhasesAppend([], wanted, byId, {""});
  }

  /** A desired role with an ID that matches an ID-less observed role by name
      is paired with the zero role, whose empty name is then recorded as
      renamed; an observed zero role left unmatched is both deleted and named
      as that update's old role. */
  lemma ZeroRoleLookupExample()
    ensures RoleActions([ZeroRole, Role(NoId, "a")], [Role("7", "a")])
      == [DeleteRole(ZeroRole), UpdateRole(Role("7", "a"), ZeroRole)]
    ensures "" in RenamedOldNames([Role("7", "a")], IndexById([ZeroRole, Role(NoId, "a")]))
  {
    var observed, desired := [ZeroRole, Role(NoId, "a")], [Role("7", "a")];
    ZeroRolePartition();
    ZeroRolePhases();
    assert DeleteActions([ZeroRole]) == [DeleteRole(ZeroRole)];
    assert CreateActions([]) == [];
    RoleActionsByPhases(observed, desired, [ZeroRole], desired, IndexById(observed), {""}, []);
  }

  /** A desired role with an ID is paired with the observed role of that ID,
      even when it also matches an ID-less observed role by name. */
  lemma IdLookupBesideNameMatchExample()
    ensures var observed, wanted := [Role(NoId, "a"), Role("7", "z")], Role("7", "a");
      && RoleMatches(observed[0], wanted)
      && ActionFor(observed, [wanted], wanted) == UpdateRole(wanted, Role("7", "z"))
  {
    var named, other := Role(NoId, "a"), Role("7", "z");
    var observed := [named, other];
    assert observed == [named] + [other] && [named] == [] + [named];
    assert IndexById(observed) == IndexById([named])[other.id := other];
    assert RoleMatches(observed[0], Role("7", "a"));
  }

  /** With two observed roles of one ID, the earlier one is paired with the
      later one when reconciled against itself. */
  lemma DuplicateIdExample()
    ensures var observed := [Role("1", "a"), Role("1", "b")];
      ActionFor(observed, observed, observed[0]) == UpdateRole(Role("1", "a"), Role("1", "b"))
  {
    var first, second := Role("1", "a"), Role("1", "b");
    var observed := [first, second];
    assert observed == [first] + [second] && [first] == [] + [first];
    assert IndexById(observed) == IndexById([first])[second.id := second];
    assert RoleMatches(observed[0], first);
  }
}

/**
  The Keycloak client reconciler: from the observed state of a client in
  Keycloak and the KeycloakClient custom resource that describes it, the
  ordered list of actions that brings Keycloak in line with the resource.
 */
module Reconciler {
  import opened Roles

  /** The actions the reconciler emits. Client and secret actions carry no
      payload here; the role actions carry the roles they act on. */
  datatype Action =
    | Ping
    | CreateClient
    | UpdateClient
    | DeleteClient
    | CreateSecret
    | UpdateSecret
    | CreateRole(role: Role)
    | UpdateRole(role: Role, oldRole: Role)
    | DeleteRole(role: Role)

  /** What Keycloak holds now: whether the client and its secret exist, and the client's roles. */
  datatype ClientState = ClientState(clientExists: bool, secretExists: bool, roles: seq<Role>)

  /** The custom resource: whether its deletion was requested, and the roles it asks for. */
  datatype KeycloakClient = KeycloakClient(deletionRequested: bool, roles: seq<Role>)

  /** The list of actions under construction. */
  class DesiredClusterState {
    var actions: seq<Action>

    constructor ()
      ensures actions == []
    {
      actions := [];
    }

    method AddAction(a: Action)
      modifies this
      ensures actions == old(actions) + [a]
    {
      actions := actions + [a];
    }
  }

  // ---------------------------------------------------------------------
  // The four phases of role reconciliation, as functions of the inputs

  /** One delete per role, in order. */
  function DeleteActions(roles: seq<Role>): (r: seq<Action>)
    ensures |r| == |roles|
    ensures forall k :: 0 <= k < |roles| ==> r[k] == DeleteRole(roles[k])
  {
    seq(|roles|, k requires 0 <= k < |roles| => DeleteRole(roles[k]))
  }

  /** One create per role, in order. */
  function CreateActions(roles: seq<Role>): (r: seq<Action>)
    ensures |r| == |roles|
    ensures forall k :: 0 <= k < |roles| ==> r[k] == CreateRole(roles[k])
  {
    seq(|roles|, k requires 0 <= k < |roles| => CreateRole(roles[k]))
  }

  /** The observed roles indexed by ID; of two roles with the same ID the later one wins. */
  function IndexById(roles: seq<Role>): (r: map<string, Role>)
    ensures roles == [] ==> r == map[]
    ensures roles != [] ==> roles[|roles| - 1].id in r && r[roles[|roles| - 1].id] == roles[|roles| - 1]
    decreases |roles|
  {
    if roles == [] then map[]
    else
      var last := roles[|roles| - 1];
      IndexById(roles[..|roles| - 1])[last.id := last]
  }

  /** Go map indexing: a missing ID yields the zero role. Against an index
      that files each role under its own ID, the result is the zero role or
      a role with the requested ID. */
  function LookupById(byId: map<string, Role>, id: string): (r: Role)
    ensures id !in byId ==> r == ZeroRole
    ensures id in byId ==> r == byId[id]
    ensures (forall i :: i in byId ==> byId[i].id == i) ==> r == ZeroRole || r.id == id
  {
    if id in byId then byId[id] else ZeroRole
  }

  /** The updates for the matched desired roles that carry an ID, each paired
      with the observed role of that ID. */
  function IdUpdates(matching: seq<Role>, byId: map<string, Role>): seq<Action>
    decreases |matching|
  {
    if matching == [] then []
    else
      var role := matching[|matching| - 1];
      IdUpdates(matching[..|matching| - 1], byId)
        + (if role.id != NoId then [UpdateRole(role, LookupById(byId, role.id))] else [])
  }

  /** The old names that the matched desired roles with an ID rename away. */
  function RenamedOldNames(matching: seq<Role>, byId: map<string, Role>): set<string>
    decreases |matching|
  {
    if matching == [] then {}
    else
      var role := matching[|matching| - 1];
      var oldRole := LookupById(byId, role.id);
      RenamedOldNames(matching[..|matching| - 1], byId)
        + (if role.id != NoId && role.name != oldRole.name then {oldRole.name} else {})
  }

  /** The actions for the matched desired roles without an ID: a create when
      the name was renamed away, a self-paired update otherwise. */
  function IdlessActions(matching: seq<Role>, renamed: set<string>): seq<Action>
    decreases |matching|
  {
    if matching == [] then []
    else
      var role := matching[|matching| - 1];
      IdlessActions(matching[..|matching| - 1], renamed)
        + (if role.id != NoId then []
           else if role.name in renamed then [CreateRole(role)]
           else [UpdateRole(role, role)])
  }

  /** Every ID update names a role of `matching` that carries an ID. */
  lemma {:induction false} IdUpdatesMembers(matching: seq<Role>, byId: map<string, Role>)
    ensures forall a :: a in IdUpdates(matching, byId) ==>
      a.UpdateRole? && a.role in matching && a.role.id != NoId && a.oldRole == LookupById(byId, a.role.id)
    decreases |matching|
  {
    if matching != [] {
      IdUpdatesMembers(matching[..|matching| - 1], byId);
    }
  }

  /** Every ID-less action names a role of `matching` without an ID. */
  lemma {:induction false} IdlessActionsMembers(matching: seq<Role>, renamed: set<string>)
    ensures forall a :: a in IdlessActions(matching, renamed) ==>
      || (a.CreateRole? && a.role in matching && a.role.id == NoId && a.role.name in renamed)
      || (a.UpdateRole? && a.role in matching && a.role.id == NoId && a.oldRole == a.role && a.role.name !in renamed)
    decreases |matching|
  {
    if matching != [] {
      IdlessActionsMembers(matching[..|matching| - 1], renamed);
    }
  }

  /** All role actions: deletes, ID-matched updates, ID-less matched roles, creates. */
  function RoleActions(observed: seq<Role>, desired: seq<Role>): (r: seq<Action>)
    ensures forall a :: a in r ==>
      || (a.DeleteRole? && a.role in observed && !HasMatch(desired, a.role))
      || (a.CreateRole? && a.role in desired)
      || (a.UpdateRole? && a.role in desired && HasMatch(observed, a.role))
  {
    PartitionMembers(observed, desired);
    PartitionMembers(desired, observed);
    IdUpdatesMembers(Matched(desired, observed), IndexById(observed));
    IdlessActionsMembers(Matched(desired, observed), RenamedOldNames(Matched(desired, observed), IndexById(observed)));
    var byId := IndexById(observed);
    var matching := Matched(desired, observed);
    DeleteActions(Unmatched(observed, desired))
      + IdUpdates(matching, byId)
      + IdlessActions(matching, RenamedOldNames(matching, byId))
      + CreateActions(Unmatched(desired, observed))
  }

  // How each phase function extends when its input list grows by the element at `k`.

  lemma DeleteActionsSnoc(s: seq<Role>, k: nat)
    requires k < |s|
    ensures DeleteActions(s[..k + 1]) == DeleteActions(s[..k]) + [DeleteRole(s[k])]
  {
  }

  lemma CreateActionsSnoc(s: seq<Role>, k: nat)
    requires k < |s|
    ensures CreateActions(s[..k + 1]) == CreateActions(s[..k]) + [CreateRole(s[k])]
  {
  }

  lemma IndexByIdSnoc(s: seq<Role>, k: nat)
    requires k < |s|
    ensures IndexById(s[..k + 1]) == IndexById(s[..k])[s[k].id := s[k]]
  {
    assert s[..k + 1][..k] == s[..k];
  }

  lemma IdUpdatesSnoc(s: seq<Role>, k: nat, byId: map<string, Role>)
    requires k < |s|
    ensures s[k].id == NoId ==> IdUpdates(s[..k + 1], byId) == IdUpdates(s[..k], byId)
    ensures s[k].id != NoId ==>
      IdUpdates(s[..k + 1], byId) == IdUpdates(s[..k], byId) + [UpdateRole(s[k], LookupById(byId, s[k].id))]
    ensures s[k].id == NoId || s[k].name == LookupById(byId, s[k].id).name ==>
      RenamedOldNames(s[..k + 1], byId) == RenamedOldNames(s[..k], byId)
    ensures s[k].id != NoId && s[k].name != LookupById(byId, s[k].id).name ==>
      RenamedOldNames(s[..k + 1], byId) == RenamedOldNames(s[..k], byId) + {LookupById(byId, s[k].id).name}
  {
    assert s[..k + 1][..k] == s[..k];
  }

  lemma IdlessActionsSnoc(s: seq<Role>, k: nat, renamed: set<string>)
    requires k < |s|
    ensures s[k].id != NoId ==> IdlessActions(s[..k + 1], renamed) == IdlessActions(s[..k], renamed)
    ensures s[k].id == NoId && s[k].name in renamed ==>
      IdlessActions(s[..k + 1], renamed) == IdlessActions(s[..k], renamed) + [CreateRole(s[k])]
    ensures s[k].id == NoId && s[k].name !in renamed ==>
      IdlessActions(s[..k + 1], renamed) == IdlessActions(s[..k], renamed) + [UpdateRole(s[k], s[k])]
  {
    assert s[..k + 1][..k] == s[..k];
  }

  /** `RoleActions` spelled out for the intermediate results the reconciler computes. */
  lemma RoleActionsByPhases(observed: seq<Role>, desired: seq<Role>, deleted: seq<Role>,
                            matching: seq<Role>, byId: map<string, Role>, renamed: set<string>,
                            created: seq<Role>)
    requires deleted == Unmatched(observed, desired)
    requires matching == Matched(desired, observed)
    requires byId == IndexById(observed)
    requires renamed == RenamedOldNames(matching, byId)
    requires created == Unmatched(desired, observed)
    ensures RoleActions(observed, desired)
      == DeleteActions(deleted) + IdUpdates(matching, byId) + IdlessActions(matching, renamed)
         + CreateActions(created)
  {
  }

  lemma AppendSnoc(s: seq<Action>, t: seq<Action>, a: Action)
    ensures s + t + [a] == s + (t + [a])
  {
  }

  lemma AppendAssoc(s: seq<Action>, d: seq<Action>, i: seq<Action>, l: seq<Action>, c: seq<Action>)
    ensures s + (d + i + l + c) == s + d + i + l + c
  {
  }

  // ---------------------------------------------------------------------
  // The reconciler

  /** Appends the role actions for `state` and `cr` to `desired`. */
  method ReconcileRoles(state: ClientState, cr: KeycloakClient, desired: DesiredClusterState)
    modifies desired
    ensures desired.actions == old(desired.actions) + RoleActions(state.roles, cr.roles)
  {
    ghost var start := desired.actions;
    var rolesDeleted, rolesKept := RoleDifferenceIntersection(state.roles, cr.roles);
    for k := 0 to |rolesDeleted|
      invariant desired.actions == start + DeleteActions(rolesDeleted[..k])
    {
      DeleteActionsSnoc(rolesDeleted, k);
      AppendSnoc(start, DeleteActions(rolesDeleted[..k]), DeleteRole(rolesDeleted[k]));
      desired.AddAction(DeleteRole(rolesDeleted[k]));
    }
    assert rolesDeleted[..|rolesDeleted|] == rolesDeleted;
    ghost var afterDeletes := desired.actions;

    var existingRoleById: map<string, Role> := map[];
    for k := 0 to |state.roles|
      invariant existingRoleById == IndexById(state.roles[..k])
      invariant desired.actions == afterDeletes
    {
      IndexByIdSnoc(state.roles, k);
      existingRoleById := existingRoleById[state.roles[k].id := state.roles[k]];
    }
    assert state.roles[..|state.roles|] == state.roles;

    var renamedRolesOldNames: set<string> := {};
    var rolesUnknown, rolesMatching := RoleDifferenceIntersection(cr.roles, state.roles);
    assert afterDeletes + IdUpdates(rolesMatching[..0], existingRoleById) == afterDeletes;
    for k := 0 to |rolesMatching|
      invariant desired.actions == afterDeletes + IdUpdates(rolesMatching[..k], existingRoleById)
      invariant renamedRolesOldNames == RenamedOldNames(rolesMatching[..k], existingRoleById)
    {
      IdUpdatesSnoc(rolesMatching, k, existingRoleById);
      var role := rolesMatching[k];
      if role.id != NoId {
        var oldRole := LookupById(existingRoleById, role.id);
        AppendSnoc(afterDeletes, IdUpdates(rolesMatching[..k], existingRoleById), UpdateRole(role, oldRole));
        desired.AddAction(UpdateRole(role, oldRole));
        if role.name != oldRole.name {
          renamedRolesOldNames := renamedRolesOldNames + {oldRole.name};
        }
      }
    }
    assert rolesMatching[..|rolesMatching|] == rolesMatching;
    ghost var afterUpdates := desired.actions;

    for k := 0 to |rolesMatching|
      invariant desired.actions == afterUpdates + IdlessActions(rolesMatching[..k], renamedRolesOldNames)
    {
      IdlessActionsSnoc(rolesMatching, k, renamedRolesOldNames);
      var role := rolesMatching[k];
      if role.id == NoId {
        if role.name in renamedRolesOldNames {
          AppendSnoc(afterUpdates, IdlessActions(rolesMatching[..k], renamedRolesOldNames), CreateRole(role));
          desired.AddAction(CreateRole(role));
        } else {
          AppendSnoc(afterUpdates, IdlessActions(rolesMatching[..k], renamedRolesOldNames), UpdateRole(role, role));
          desired.AddAction(UpdateRole(role, role));
        }
      }
    }
    assert rolesMatching[..|rolesMatching|] == rolesMatching;
    ghost var afterIdless := desired.actions;

    var rolesNew, rolesFound := RoleDifferenceIntersection(cr.roles, state.roles);
    for k := 0 to |rolesNew|
      invariant desired.actions == afterIdless + CreateActions(rolesNew[..k])
    {
      CreateActionsSnoc(rolesNew, k);
      AppendSnoc(afterIdless, CreateActions(rolesNew[..k]), CreateRole(rolesNew[k]));
      desired.AddAction(CreateRole(rolesNew[k]));
    }
    assert rolesNew[..|rolesNew|] == rolesNew;
    RoleActionsByPhases(state.roles, cr.roles, rolesDeleted, rolesMatching, existingRoleById,
                        renamedRolesOldNames, rolesNew);
    AppendAssoc(start, DeleteActions(rolesDeleted), IdUpdates(rolesMatching, existingRoleById),
                IdlessActions(rolesMatching, renamedRolesOldNames), CreateActions(rolesNew));
  }

  /** The whole reconciliation: a ping first; then either the client's
      deletion alone, or a create or update of the client, a create or update
      of its secret, and the role actions. */
  method Reconcile(state: ClientState, cr: KeycloakClient) returns (actions: seq<Action>)
    ensures |actions| >= 1 && actions[0] == Ping
    ensures cr.deletionRequested ==> actions == [Ping, DeleteClient]
    ensures !cr.deletionRequested ==>
      && |actions| >= 3
      && actions[1] == (if state.clientExists then UpdateClient else CreateClient)
      && actions[2] == (if state.secretExists then UpdateSecret else CreateSecret)
      && actions[3..] == RoleActions(state.roles, cr.roles)
  {
    var desired := new DesiredClusterState();
    desired.AddAction(Ping);
    if cr.deletionRequested {
      desired.AddAction(DeleteClient);
      return desired.actions;
    }

    if !state.clientExists {
      desired.AddAction(CreateClient);
    } else {
      desired.AddAction(UpdateClient);
    }

    if !state.secretExists {
      desired.AddAction(CreateSecret);
    } else {
      desired.AddAction(UpdateSecret);
    }

    ReconcileRoles(state, cr, desired);
    return desired.actions;
  }
}

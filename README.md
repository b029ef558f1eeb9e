# Keycloak client reconciler: a Dafny model

This project models the decision core of the Keycloak operator's
`KeycloakClient` reconciler. The reconciler gets two inputs:

- the observed state of one client in a Keycloak realm: whether the client
  exists, whether its credential secret exists, and which client roles it has;
- the desired state, written by the user as a `KeycloakClient` custom resource.

From these it computes an ordered list of cluster actions. Actions for the
client and its secret come first, then actions for the roles. The model
covers:

- **Role identity** (module `Roles`, file `roles.dfy`). Two roles are the
  same role when both have an ID and the IDs are equal. Otherwise, when
  either has no ID, the names decide. `HasMatchingRole` is the linear scan
  the source uses. `RoleDifferenceIntersection` splits one role list against
  another into the roles with no counterpart and the roles with one, keeping
  order. Both methods are proved against the specification functions
  `HasMatch`, `Unmatched` and `Matched`. Lemmas show that the split is a
  permutation, keeps order, and sorts each role by the matching criterion.
- **The reconciler** (module `Reconciler`, file `reconciler.dfy`).
  `DesiredClusterState` is a class holding the action list, with an
  `AddAction` method that appends to it. `ReconcileRoles` and `Reconcile`
  are methods that mirror the Go loops one for one. They call the partition
  three times, build the ID index in which the later role wins, and record
  the old names of renamed roles. Both are proved against the function
  `RoleActions`. `RoleActions` defines the four phases:
  1. delete each observed role that has no desired match;
  2. update each matched desired role that has an ID, paired with the
     observed role its ID leads to;
  3. for each matched desired role without an ID, create it if its name was
     renamed away in phase 2, and otherwise update it paired with itself;
  4. create each desired role that has no observed match.

  The action builders `pingKeycloak` and `get…State` become constructors of
  the `Action` datatype.
- **What the role actions mean** (module `ReconcilerProperties`, file
  `reconciler_properties.dfy`). `ActionFor` is a per-role reference
  classification that says, for one desired role taken alone, which action it
  must produce. The main theorem is `RoleActionsPerRole`: the phased
  computation emits exactly the deletes for unmatched observed roles plus
  `ActionFor` of every desired role, as multisets. The lemmas built on it
  cover:
  - counting: one action per desired role, one delete per unmatched observed
    role;
  - coverage: an observed role that no desired role matches appears in no
    action except its own delete, unless it is the zero role (a role with
    neither ID nor name), which a missed ID lookup also produces;
  - phase order;
  - a no-op: when the desired roles are the observed ones, in any order,
    and the observed roles carry pairwise distinct IDs, the result is
    exactly one self-paired update per role. Without distinct IDs this fails: for
    `[("1","a"), ("1","b")]` against itself, the lookup pairs `("1","a")`
    with `("1","b")` (`DuplicateIdExample`);
  - worked examples: lemmas that compute the role actions for concrete
    inputs, namely a rename, a rename whose old name is reused, and the
    missing-ID lookup.

Two consequences of the code that are easy to miss:

- The role actions come in the four phases above, in a fixed order;
  `RoleActionsOrdered` proves it.
- Observed roles may lack an ID. A desired role with an ID can then match
  an ID-less observed role by name, while its ID lookup goes elsewhere:
  - when no observed role carries that ID, the lookup misses and Go's map
    yields the zero role, so the update is paired with a role that has
    neither ID nor name. Unless the desired role's own name is empty, the
    empty name is then recorded as renamed;
  - when some observed role carries that ID, the update is paired with the
    last such role, even if the desired role also matches an ID-less role by
    name: desired `("7","a")` against observed `[("","a"), ("7","z")]` is
    paired with `("7","z")`.

  `IdMatchedRoleUpdate` states both cases. `ZeroRoleLookupExample` shows the
  first, and `IdLookupBesideNameMatchExample` the second.

## Model

| member | source | states |
|---|---|---|
| Roles.RoleMatches | pkg/controller/keycloakclient/keycloakclient_reconciler.go:118-123 | The identity rule. A matched pair never carries two different IDs. A match between different names is a match by ID, which is a rename. Every role matches itself. |
| Roles.RoleMatchesSymmetric | pkg/controller/keycloakclient/keycloakclient_reconciler.go:118-123 | Whether two roles match does not depend on their order. |
| Roles.SameIdMatchesAcrossRename | pkg/controller/keycloakclient/keycloakclient_reconciler.go:119-120 | Statement of the rule's ID branch: roles with the same non-empty ID match, whatever their names. |
| Roles.NoIdMatchesByName | pkg/controller/keycloakclient/keycloakclient_reconciler.go:119-122 | Statement of the rule's name branch: when either role has no ID, they match exactly when the names agree. |
| Roles.RoleMatchesNotTransitive | pkg/controller/keycloakclient/keycloakclient_reconciler.go:118-123 | Matching is not transitive: an ID-less role matches two roles that have different IDs. |
| Roles.HasMatchingRole | pkg/controller/keycloakclient/keycloakclient_reconciler.go:109-116 | The scan returns true exactly when some role in the list matches the given role. |
| Roles.RoleDifferenceIntersection | pkg/controller/keycloakclient/keycloakclient_reconciler.go:97-107 | Returns the unmatched roles of `a` and the matched roles of `a`, each in the order of `a`. |
| Roles.PartitionIsPermutation | pkg/controller/keycloakclient/keycloakclient_reconciler.go:99-105 | The two results together hold exactly the roles of `a`, with multiplicity. Their sizes add up to `|a|`. |
| Roles.PartitionCount | pkg/controller/keycloakclient/keycloakclient_reconciler.go:99-105 | Each role of `a` lands on the matched side exactly as often as it occurs in `a` when `b` matches it, and on the unmatched side otherwise. |
| Roles.PartitionCriterion | pkg/controller/keycloakclient/keycloakclient_reconciler.go:97-105 | A role is in the matched result iff it is in `a` and `b` matches it. It is in the unmatched result iff it is in `a` and `b` does not. Never both; results come from `a`. |
| Roles.PartitionKeepsOrder | pkg/controller/keycloakclient/keycloakclient_reconciler.go:99-105 | Partitioning `a1 + a2` gives the partition of `a1` followed by the partition of `a2`, on both sides. |
| Roles.PartitionAgainstSelf | pkg/controller/keycloakclient/keycloakclient_reconciler.go:99-105 | Against a list that contains all its roles, nothing is unmatched and every role is matched, in order. |
| Reconciler.DesiredClusterState.constructor | pkg/controller/keycloakclient/keycloakclient_reconciler.go:26 | A new desired state holds no actions. |
| Reconciler.DesiredClusterState.AddAction | pkg/controller/keycloakclient/keycloakclient_reconciler.go:28 | Appends the action at the end of the list. |
| Reconciler.ReconcileRoles | pkg/controller/keycloakclient/keycloakclient_reconciler.go:51-95 | Appends exactly `RoleActions(observed roles, desired roles)`: deletes, then ID-matched updates, then ID-less matched roles, then creates. |
| Reconciler.Reconcile | pkg/controller/keycloakclient/keycloakclient_reconciler.go:25-49 | Always starts with a ping. On deletion the result is exactly a ping and a client delete. Otherwise it holds client create or update (by client presence), then secret create or update (by secret presence), then the role actions. |
| Reconciler.IndexById | pkg/controller/keycloakclient/keycloakclient_reconciler.go:61-64 | The ID index of the observed roles. It is empty for no roles, and the last role is always filed under its own ID, so a later role with the same ID wins. |
| Reconciler.LookupById | pkg/controller/keycloakclient/keycloakclient_reconciler.go:69 | Go's map read: a missing ID yields the zero role, a present one its stored role. Against an index that files each role under its own ID, the result is the zero role or a role with the requested ID. |
| Reconciler.IdUpdatesMembers | pkg/controller/keycloakclient/keycloakclient_reconciler.go:66-75 | Every action of the ID-update phase is an update of a matched role that carries an ID, paired with the lookup of that ID. |
| Reconciler.IdlessActionsMembers | pkg/controller/keycloakclient/keycloakclient_reconciler.go:77-88 | Every action of the ID-less phase concerns a matched role without an ID. It is a create when the role's name is in the renamed set, and a self-paired update when it is not. |
| Reconciler.RoleActions | pkg/controller/keycloakclient/keycloakclient_reconciler.go:54-94 | The four role phases in order: deletes, ID updates, ID-less actions, creates. Every action is a delete of an observed role that no desired role matches, or a create or update of a desired role (an update only for a role that has an observed match). |
| ReconcilerProperties.IndexByIdLastWins | pkg/controller/keycloakclient/keycloakclient_reconciler.go:61-64 | The ID index has a key exactly for the IDs of the observed roles, including the empty ID. Each maps to the last observed role with that ID. |
| ReconcilerProperties.LookupByIdIsSameIdOrZero | pkg/controller/keycloakclient/keycloakclient_reconciler.go:61-69 | A lookup yields the zero role or a role with the requested ID. When some observed role has that ID, it yields an observed role. |
| ReconcilerProperties.RenamedOldNamesIff | pkg/controller/keycloakclient/keycloakclient_reconciler.go:65-75 | A name is recorded as renamed iff some matched desired role with an ID asks for a name other than that of the observed role its ID leads to, and that name is the old one. |
| ReconcilerProperties.RoleActionsPerRole | pkg/controller/keycloakclient/keycloakclient_reconciler.go:51-95 | As a multiset, the role actions are the deletes of the unmatched observed roles plus `ActionFor` of each desired role. |
| ReconcilerProperties.EachDesiredRoleOneAction | pkg/controller/keycloakclient/keycloakclient_reconciler.go:59-94 | Each desired role yields its classified action exactly once per occurrence. |
| ReconcilerProperties.DeletesForUnmatchedObserved | pkg/controller/keycloakclient/keycloakclient_reconciler.go:52-57 | The delete of an observed role occurs once per occurrence when no desired role matches it, and never otherwise. |
| ReconcilerProperties.CreatesForUnmatchedDesired | pkg/controller/keycloakclient/keycloakclient_reconciler.go:90-94 | A desired role with no observed match is created once per occurrence. |
| ReconcilerProperties.IdMatchedRoleUpdate | pkg/controller/keycloakclient/keycloakclient_reconciler.go:66-75 | A matched desired role with an ID is updated once per occurrence. The update is paired with an observed role carrying its ID when one exists (the last such role, by `IndexByIdLastWins`), and with the zero role when none does. |
| ReconcilerProperties.IdlessMatchedRole | pkg/controller/keycloakclient/keycloakclient_reconciler.go:77-88 | A matched desired role without an ID is created when its name was renamed away, and updated paired with itself otherwise. |
| ReconcilerProperties.RoleActionCount | pkg/controller/keycloakclient/keycloakclient_reconciler.go:51-95 | The number of role actions is the number of unmatched observed roles plus the number of desired roles. |
| ReconcilerProperties.RoleActionsMember | pkg/controller/keycloakclient/keycloakclient_reconciler.go:51-95 | Every role action is a delete of an unmatched observed role or the classified action of some desired role. |
| ReconcilerProperties.DeletedRoleOnlyDeleted | pkg/controller/keycloakclient/keycloakclient_reconciler.go:52-94 | An observed role that no desired role matches (other than the zero role) appears in no role action except its own delete. |
| ReconcilerProperties.NoOpAllSelfUpdates | pkg/controller/keycloakclient/keycloakclient_reconciler.go:51-95 | When the desired roles are the observed ones in any order (the same multiset) and the observed IDs are pairwise distinct, the role actions are, as a multiset, exactly one self-paired update for each desired role. There are as many actions as desired roles, and each is a self-paired update. |
| ReconcilerProperties.RoleActionsOrdered | pkg/controller/keycloakclient/keycloakclient_reconciler.go:54-94 | All deletes come before all ID updates, which come before the ID-less actions, which come before the creates of unmatched roles. |
| ReconcilerProperties.RenameExample | pkg/controller/keycloakclient/keycloakclient_reconciler.go:66-75 | Renaming role `1` from `a` to `b` yields exactly one update from the old role to the new one. |
| ReconcilerProperties.RenameWithNameReuseExample | pkg/controller/keycloakclient/keycloakclient_reconciler.go:61-88 | Renaming `1` from `a` to `b` while adding an ID-less `a` yields the update, then a create of the new `a` (no update of it). |
| ReconcilerProperties.IdLookupBesideNameMatchExample | pkg/controller/keycloakclient/keycloakclient_reconciler.go:61-70 | Desired `7/a` against observed `[/a, 7/z]` matches the ID-less `a` by name, yet its action is an update paired with `7/z`, the observed role of ID `7`. |
| ReconcilerProperties.DuplicateIdExample | pkg/controller/keycloakclient/keycloakclient_reconciler.go:61-70 | For observed `[1/a, 1/b]`, the desired role `1/a` is paired with `1/b`, the later role of ID `1`, so the no-op result needs distinct IDs. |
| ReconcilerProperties.ZeroRoleLookupExample | pkg/controller/keycloakclient/keycloakclient_reconciler.go:61-73 | A desired `7/a` that matches an ID-less observed `a` by name, with no observed role of ID `7`, is paired with the zero role. The empty name is recorded as renamed. |

## Left out

- Messages, realm names, namespaces and the custom resource reference
  carried by each action: these are strings built for logging and for the
  executor. They do not depend on the decisions modelled here.
- The secret payload (`model.ClientSecret`, `model.ClientSecretReconciled`):
  that code is not part of this model. The secret actions are modelled
  without a payload.
- `DeepCopy` of roles: on values it is the identity, so roles are passed
  as-is.
- The `Reconciler` interface and `NewKeycloakClientReconciler`: the
  receiver's `Keycloak` field is never read by the reconciler, so the
  methods take no receiver.
- The other fields of the client, the secret and the custom resource:
  presence of the client and the secret is modelled as two booleans, and
  `DeletionTimestamp` as whether deletion was requested.
- Running the actions, the Keycloak API, and the surrounding controller
  loop: these are I/O outside the reconciler.
- The other fields of a Keycloak role representation: `Role` keeps only the
  ID and the name, because the reconciler reads no other field. The role
  values copied into each action carry those two fields only.
- DeletedRoleOnlyDeleted: it excludes the zero role. An observed role with
  neither ID nor name can show up as the paired old role of a missed ID
  lookup, as `ZeroRoleLookupExample` shows.

# Verified model of the Cloud Foundry RBAC explorations

This project models four pieces of the repository and proves what they guarantee.

**The multi-cluster org controller** (`cross-cluster-orgs/org-controller`). Two reconcilers, `Org` and
`GlobalUser`, run side by side in one manager and drive namespaces and role bindings in several clusters
towards custom resources in a central cluster. The model has three layers, and proofs that they agree:

- `Clients`, `Reconcilers`: the code as it runs. A `Client` object holds the namespaces and bindings of one
  cluster and changes under the calls made to it; the reconcilers are methods with the loops, early returns
  and overwritten errors of the Go code. Each is proved equal to a specification function.
- `Api`, `Grants`, `OrgSpec`, `GlobalUserSpec`: the specification functions over a map of clusters, with
  faults. `OrgTheorems`, `GlobalUserTheorems` and `Repeats` prove what whole reconciles guarantee.
- `Workers`: both reconcilers cut at every API call, interleaved in any order, with lagging reads, failing
  calls and crashes. `Safety` and `Winner` prove what holds in every run; `Refinement` proves that a worker
  left alone does to the clusters what the specification function says, fault by fault.

**Deep copies** of `OrgList` and everything in it (`DeepCopy`): arrays in the heap, possibly nil, possibly
shared by the source.

**The admission policies** for OPA and for Gatekeeper (`Json`, `Policy`): path removal on arbitrary JSON
documents, the two decisions, where each engine finds its bindings, and a Droplet over a run of updates.

**The role-table parser** (`RoleTable`): the awk program's patterns, its field loop and its start flag.

## What is assumed of the libraries

- Creating a namespace fails with AlreadyExists if it is there. Creating a binding fails with NotFound if
  its namespace is missing and with AlreadyExists if its key (namespace and name) is taken. Deleting a
  binding is by key, and NotFound is an error.
- `DeleteAllOf` over namespaces selects by label and removes the bindings inside. It may be refused, be
  carried out without a reply, or be interrupted after any part of the namespaces. The vendored API types
  mark Namespace with `+genclient:skipVerbs=deleteCollection`
  (`cross-cluster-orgs/org-controller/vendor/k8s.io/api/core/v1/types.go:5140`): where a server does not
  offer the call, every deletion attempt is refused, changes nothing and fails
  (`OrgTheorems.RefusedDeletionChangesNothing`), and the deletion and round-trip results, which speak of
  attempts that complete, promise nothing more.
- A List returns every matching object once, in any order; a Go map is ranged over in any order. The
  methods get an arbitrary order at every call, and so do the theorems; where an order matters, a theorem
  says so (`Repeats`).
- Each custom resource of the central cluster is stored under its own name (`Central.Valid`).
- Each cluster carries a queue of faults for its next calls: a call is served, is refused, is carried out
  although the caller sees an error, or, for `DeleteAllOf`, is interrupted. An empty queue means that every
  call is served; "fault-free" below means that. A theorem that does not say so holds under any faults.
- OPA's collection of role bindings has the binding name as its only key
  (`opa/space-developer.rego:14`, filled by `--replicate-cluster` in `opa/admission-controller.yaml:163`), so
  it holds one binding of each name, from any of the namespaces that have one. Gatekeeper's inventory keeps
  the namespaces apart.
- Different clusters have different clients (`Separate`), which `GetClusterClients` establishes. Each
  controller has one worker.
- In `Workers`, a Get or List of custom resources may return any version that ever existed, a Get may
  report NotFound at any time, and a worker may stop at any point and start again.

## What the code does that a reader may not expect

- Reconciling an org a second time reports an error whenever its last space wants any binding, although
  nothing is wrong: existing bindings count as failures (`Repeats.RepeatChangesNothing`, `Repeats.IdleSucceedsExactly`).
- A reconcile looks no further than the first binding a space now asks for: while that exists, nothing is
  created (`Repeats.ChangedSpecIgnoredExactly`). So users appended to a space that has its first binding get
  none (`Repeats.AppendedSpaceUsersAreIgnored`), and users appended to an org get none in such a space if the
  global or the other org users ask for something in it (`Repeats.AppendedOrgUsersAreIgnored`). In a space
  that has users of its own only they do get theirs, because they come before these
  (`Repeats.FirstBindingIsNotEnough`).
- The order in which global users are listed can decide what a repeated reconcile creates
  (`Repeats.OrderOfGlobalsMatters`), unless every space succeeded before
  (`Repeats.RepeatOfSuccessChangesNothing`).
- Two orgs of different names can end up in one namespace exactly when one name is the other's followed by a dash and
  possibly more (`Names.CollisionsExactly`, `OrgTheorems.ContinuedNamesShare`); any other two orgs stay
  separate, whatever further orgs there are (`Safety.ErasingOneOrgKeepsTheOthers`).
- The OPA policy can miss a space developer whose binding has the same name as one in another namespace
  (`Policy.SameNameLosesOne`); Gatekeeper does not. `Policy.PoliciesAgreeExactly` says exactly when the two
  decide alike.
- `json.remove` is undefined on a value that is no object, so neither policy ever fires on a deletion or a
  creation, where one of the two versions is null (`Policy.DenyExactly`).
- Printed role rows do not always survive being parsed again: a row is lost exactly when its role, after
  white space at its start, begins with two dashes or is Role or Roles up to white space at its end
  (`RoleTable.ReparseExactly`). White space is what the awk patterns' `\s` matches, form feeds and vertical
  tabs included, which the trim helpers keep. Such rows do occur (`RoleTable.LostRolesOccur`).

## Model

| member | source | states |
|---|---|---|
| Names.JoinInjective | cross-cluster-orgs/org-controller/reconcilers/org.go:106 | With dash-free left parts, a joined name determines both of its parts, whatever the right parts are. The same holds for `user-role` (line 181). |
| Names.CollisionsExactly | cross-cluster-orgs/org-controller/reconcilers/org.go:106 | Two different left parts have a joined name in common if and only if one is the other followed by a dash and possibly more. |
| Names.PrefixesAgree | cross-cluster-orgs/org-controller/reconcilers/org.go:106 | A name that starts with two left parts and their dashes forces them to be equal or one to continue the other. |
| Clients.Client.CreateNamespace | cross-cluster-orgs/org-controller/reconcilers/org.go:155 | The assumed Create of a namespace, case by case of the next fault: the whole new state of the cluster and what the caller sees. |
| Clients.Client.CreateBinding | cross-cluster-orgs/org-controller/reconcilers/org.go:199 | The assumed Create of a binding, case by case of the next fault: NotFound without its namespace, AlreadyExists if its key is taken, else stored. |
| Clients.Client.DeleteBinding | cross-cluster-orgs/org-controller/reconcilers/global_user.go:95 | The assumed Delete of a binding by its key, case by case of the next fault. |
| Clients.Client.DeleteNamespaces | cross-cluster-orgs/org-controller/reconcilers/org.go:130 | The assumed DeleteAllOf by label, with the bindings inside, under the next fault: all of it, none, or any part of the namespaces with an error. |
| Clients.Client.ListCfNamespaces | cross-cluster-orgs/org-controller/reconcilers/global_user.go:117 | If it succeeds, a name is returned if and only if that namespace exists and carries the label code.cloudfoundry.org/org, each once, in any order. |
| Clients.Client.ListGlobalBindings | cross-cluster-orgs/org-controller/reconcilers/global_user.go:85-89 | If it succeeds, a key is returned if and only if its binding has role_level global and its first User subject has the name, each once, in any order. |
| Clients.Range | cross-cluster-orgs/org-controller/reconcilers/org.go:129 | A Go map range: every key exactly once, in an arbitrary order. |
| Clients.Central.GetOrg | cross-cluster-orgs/org-controller/reconcilers/org.go:46 | The org stored under its name, NotFound if there is none, or a fault. |
| Clients.Central.GetGlobalUser | cross-cluster-orgs/org-controller/reconcilers/global_user.go:50 | The global user stored under its name, NotFound if there is none, or a fault. |
| Clients.Central.ListGlobalUsers | cross-cluster-orgs/org-controller/reconcilers/org.go:84-85 | All stored global users, each name once, in any order, or a fault. |
| Reconcilers.GetSubjectUserName | cross-cluster-orgs/org-controller/main.go:26-40 | The search over the subjects yields the name of the first User subject only, and nothing if and only if there is no User subject. |
| Reconcilers.GetClusterClients | cross-cluster-orgs/org-controller/main.go:103-134 | For each of the two fixed names, connecting may fail in its configuration, connection or index: the result is complete if and only if none does, and nothing otherwise. It then has one client for each name and no other, all new and no two the same object, each holding what its cluster holds. |
| Reconcilers.CreateNamespace | cross-cluster-orgs/org-controller/reconcilers/org.go:139-166 | The method leaves the cluster and reports the outcome that the specification gives: an existing namespace is a success, any other error a failure. |
| Reconcilers.CreateRoleBindings | cross-cluster-orgs/org-controller/reconcilers/org.go:168-207 | The nested loops over users and roles are one pass over the flattened list of requests, stopping at the first error, an existing binding included; under any faults. |
| Reconcilers.OrgReconciler.Reconcile | cross-cluster-orgs/org-controller/reconcilers/org.go:37-81 | By cases: a failed Get or a failed List changes no cluster and reports that error; a served Get that finds no org is the deletion loop; otherwise it is the loop over the spaces with the listed global users. |
| Reconcilers.OrgReconciler.GetGlobalUsers | cross-cluster-orgs/org-controller/reconcilers/org.go:83-95 | The users built by append are the listed global users in order, and so every stored global user with its roles exactly once. |
| Reconcilers.OrgReconciler.ReconcileSpace | cross-cluster-orgs/org-controller/reconcilers/org.go:97-126 | Namespace, then global bindings, then org and space users' bindings; the first failure ends it; under any faults. |
| Reconcilers.OrgReconciler.ReconcileDeletedOrg | cross-cluster-orgs/org-controller/reconcilers/org.go:128-137 | In some order of all clusters, deletion by label on each until the first error. |
| Reconcilers.GlobalUserReconciler.Reconcile | cross-cluster-orgs/org-controller/reconcilers/global_user.go:41-81 | By cases: a failed Get changes no cluster and reports the error; a served Get that finds no user is the deletion loop; otherwise it is the loop over the clusters, in some order and with correct List results. |
| Reconcilers.GlobalUserReconciler.ReconcileAllClusters | cross-cluster-orgs/org-controller/reconcilers/global_user.go:66-80 | The loop over the clusters stops at the first error, with the listings it got on the way. |
| Reconcilers.GlobalUserReconciler.ReconcileCluster | cross-cluster-orgs/org-controller/reconcilers/global_user.go:67-77 | One cluster: a List, then the user's bindings in every listed namespace, stopping at the first error. |
| Reconcilers.GlobalUserReconciler.ReconcileGlobalUserInNamespace | cross-cluster-orgs/org-controller/reconcilers/global_user.go:106-113 | One namespace: the user's roles at global level, stopping at the first error. |
| Reconcilers.GlobalUserReconciler.GetCfNamespaces | cross-cluster-orgs/org-controller/reconcilers/global_user.go:115-126 | A name is in the result if and only if that namespace exists and carries the label code.cloudfoundry.org/org, each once. |
| Reconcilers.GlobalUserReconciler.ReconcileDeletedGlobalUser | cross-cluster-orgs/org-controller/reconcilers/global_user.go:83-104 | In some order of all clusters, with correct List results, the deletion loop stops at the first error. |
| Reconcilers.GlobalUserReconciler.DeleteOnCluster | cross-cluster-orgs/org-controller/reconcilers/global_user.go:85-99 | One cluster: a List, then a Delete for each item until the first error. |
| Grants.PassCreatesLongestFreshPrefix | cross-cluster-orgs/org-controller/reconcilers/org.go:176-204 | Fault-free, a pass creates exactly the longest prefix of the requests whose keys are pairwise distinct and not taken, and succeeds if and only if that is the whole list. |
| Grants.PassAllOrNot | cross-cluster-orgs/org-controller/reconcilers/org.go:176-204 | Fault-free, a pass succeeds if and only if all keys are fresh, and then adds all of them. |
| Grants.PassBounds | cross-cluster-orgs/org-controller/reconcilers/org.go:176-204 | Under any faults a pass only adds, adds only requested bindings under their own keys, and leaves namespaces alone. |
| Grants.PassStopsAtFirstError | cross-cluster-orgs/org-controller/reconcilers/org.go:176-204 | Under any faults the first call that reports an error is the last one made. |
| Grants.PassSuccessIsComplete | cross-cluster-orgs/org-controller/reconcilers/org.go:176-204 | Under any faults, a pass that reports success has created every requested binding, and none of their keys was taken. |
| Grants.FlattenAt | cross-cluster-orgs/org-controller/reconcilers/org.go:176-177 | Role j of user i is requested after all roles of the users before it and its own earlier roles. |
| Grants.GrantedSize | cross-cluster-orgs/org-controller/reconcilers/org.go:176-204 | Requests with distinct keys become as many bindings as there are requests. |
| Grants.FlattenMember | cross-cluster-orgs/org-controller/reconcilers/org.go:176-198 | Every request of the nested loops comes from a listed user who has the role. |
| OrgSpec.SpaceIsOnePass | cross-cluster-orgs/org-controller/reconcilers/org.go:106-125 | Under any faults, the two successive calls with their nested loops equal one pass over global users, then org users, then space users. |
| OrgSpec.EnsureSpelledOut | cross-cluster-orgs/org-controller/reconcilers/org.go:139-166 | Creating the namespace under any fault: an error of the server is a failure whether or not the namespace was created, an existing one is left as it is; a new one is labelled code.cloudfoundry.org/org with the org's name. |
| OrgSpec.WantedGlobalRole | cross-cluster-orgs/org-controller/reconcilers/org.go:106-112 | Which call the space makes for role j of global user i, and at which place: namespace org-space, level global, before all org users. |
| OrgSpec.WantedOrgRole | cross-cluster-orgs/org-controller/reconcilers/org.go:117-120 | The same for org users: level other, after all global users. |
| OrgSpec.WantedSpaceRole | cross-cluster-orgs/org-controller/reconcilers/org.go:117-120 | The same for the space's users: level other, after all org users. |
| OrgSpec.SpaceCreatesLongestFreshPrefix | cross-cluster-orgs/org-controller/reconcilers/org.go:106-125 | Fault-free, a space creates its namespace if missing and exactly the longest prefix of that list with distinct and absent keys; it returns nil if and only if that is all of it. |
| OrgSpec.SpaceGrantsExactly | cross-cluster-orgs/org-controller/reconcilers/org.go:97-126 | Fault-free, from a namespace without bindings, a space succeeds if and only if the wanted keys are pairwise distinct, and then leaves exactly the wanted (user, role, level) bindings, as many as all role lists are long together. |
| OrgSpec.SuccessfulSpaceSpelledOut | cross-cluster-orgs/org-controller/reconcilers/org.go:97-207 | That result with every field written out: the namespace org-space and its label, and for every listed user and role a binding named user-role of that User to that ClusterRole with its level. |
| OrgSpec.SpaceSuccessIsComplete | cross-cluster-orgs/org-controller/reconcilers/org.go:97-126 | Under any faults, a space that reports success has its namespace and every wanted binding, none of which was there before; one whose namespace call met an error has created no binding. |
| OrgSpec.FailedSpaceIsPassed | cross-cluster-orgs/org-controller/reconcilers/org.go:67-80 | Under any faults, the loop goes on after failed spaces: one more space is reconciled from what they left and its outcome replaces theirs; an unknown cluster ends the loop. |
| OrgSpec.SpacesGrow | cross-cluster-orgs/org-controller/reconcilers/org.go:67-80 | Under any faults, the loop over the spaces removes and alters nothing in any cluster. |
| OrgTheorems.SpaceSlice | cross-cluster-orgs/org-controller/reconcilers/org.go:97-126 | Under any faults, a space's result depends on its own namespace only, and no other namespace's content changes. |
| OrgTheorems.SpacesDoNotInterfere | cross-cluster-orgs/org-controller/reconcilers/org.go:67-80 | Fault-free, with distinct (cluster, space name) pairs: each space before the first unknown cluster ends as if reconciled alone, even if others fail; everything else is untouched; the result is nil if and only if no cluster is unknown and the last space, if any, succeeds. |
| OrgTheorems.DeleteOrgErases | cross-cluster-orgs/org-controller/reconcilers/org.go:128-137 | A deletion attempt stopped anywhere keeps what erasure would leave; every cluster it has passed is erased; an erased cluster stays so. |
| OrgTheorems.ErasedSpelledOut | cross-cluster-orgs/org-controller/reconcilers/org.go:130 | Erasure removes exactly the namespaces whose label code.cloudfoundry.org/org is the org's name, and the bindings in them. |
| OrgTheorems.FirstErrorEndsDeletion | cross-cluster-orgs/org-controller/reconcilers/org.go:129-134 | Under any faults the deletion visits the clusters in turn and stops at the first error: those before are erased, those after untouched; success means all are erased. |
| OrgTheorems.EraseCall | cross-cluster-orgs/org-controller/reconcilers/org.go:130 | A DeleteAllOf, however it fails and however much of it was done, keeps what erasing the org would leave; if it succeeds, that is what is left. |
| OrgTheorems.OrgRoundTrip | cross-cluster-orgs/org-controller/reconcilers/org.go:128-166 | If no namespace had the org's label and no target namespace existed, then a reconcile with any outcome under any faults, followed by any number of deletion attempts, each stopped anywhere, of which the last completes, restores every cluster exactly. |
| OrgTheorems.LastAttemptDecides | cross-cluster-orgs/org-controller/reconcilers/org.go:128-137 | Deletion attempts run one after the other, and the outcome is that of the last. |
| OrgTheorems.RefusedDeletionChangesNothing | cross-cluster-orgs/org-controller/reconcilers/org.go:128-137 | Where DeleteAllOf is refused, a deletion attempt changes nothing and fails. |
| OrgTheorems.ContinuedNamesShare | cross-cluster-orgs/org-controller/reconcilers/org.go:106-153 | Whenever one org name continues another with a dash, some two specs make the second org's binding land in a namespace labelled for the first org, and erasing the first org removes it. |
| Repeats.SpacesSettle | cross-cluster-orgs/org-controller/reconcilers/org.go:67-80 | After a fault-free reconcile of any spec, each space before the first unknown cluster is settled: its namespace is there, and the first binding it wants, if any. |
| Repeats.SpaceIdleExactly | cross-cluster-orgs/org-controller/reconcilers/org.go:97-126 | Fault-free, a space leaves its cluster unchanged if and only if it is settled. |
| Repeats.IdleExactly | cross-cluster-orgs/org-controller/reconcilers/org.go:67-80 | Fault-free, a reconcile leaves all clusters unchanged if and only if every space before the first unknown cluster is settled; the outcome is then an unknown cluster's, or else the last space's. |
| Repeats.ChangedSpecIgnoredExactly | cross-cluster-orgs/org-controller/reconcilers/org.go:106-123 | For any changed org, space and global list over a settled space's namespace, the next fault-free reconcile changes nothing if and only if nothing is wanted now or the first binding now wanted exists. |
| Repeats.AppendedSpaceUsersAreIgnored | cross-cluster-orgs/org-controller/reconcilers/org.go:117-123 | Users appended to a settled space that wants anything get nothing: the reconcile changes nothing and fails. |
| Repeats.AppendedOrgUsersAreIgnored | cross-cluster-orgs/org-controller/reconcilers/org.go:117-123 | The same for users appended to the org, where global or other org users already want something in the space. |
| Repeats.AppendedOrgUserIsGranted | cross-cluster-orgs/org-controller/reconcilers/org.go:117-123 | Without such users, a user put on the org is granted in an existing namespace if the key is free, whatever the space's own users have. |
| Repeats.FirstBindingIsNotEnough | cross-cluster-orgs/org-controller/reconcilers/org.go:117-123 | A space that has granted its own user and is settled still grants a user appended to the org: the first binding's existence decides nothing by itself. |
| Repeats.RepeatExactly | cross-cluster-orgs/org-controller/reconcilers/org.go:62-80 | After a fault-free reconcile and any additions, a fault-free repeat with any global list, the same one in another order for instance, changes nothing if and only if in each space before the first unknown cluster the first binding now wanted exists or none is wanted. |
| Repeats.RepeatChangesNothing | cross-cluster-orgs/org-controller/reconcilers/org.go:67-80 | Idempotence for every spec, duplicates and unknown clusters included, with the global users listed in the same order: the repeat changes no cluster, and its outcome is given. |
| Repeats.RepeatOfSuccessChangesNothing | cross-cluster-orgs/org-controller/reconcilers/org.go:62-80 | If every space before the first unknown cluster succeeded, the repeat changes nothing under every permutation of the global users, and also if some of them have gone. |
| Repeats.OrderOfGlobalsMatters | cross-cluster-orgs/org-controller/reconcilers/org.go:62-65 | Without that success it can: two orders of the same two global users, of which one reconcile changes nothing and the next creates a binding. |
| Repeats.IdleSucceedsExactly | cross-cluster-orgs/org-controller/reconcilers/org.go:67-80 | A reconcile that changes nothing because all is settled returns nil if and only if no cluster is unknown and the last space, if any, wants nothing. |
| Repeats.RepeatAfterOthersChangesNothing | cross-cluster-orgs/org-controller/reconcilers/org.go:67-126 | Idempotence with any creating reconciles in between, of any orgs and global users, each stopped anywhere by any fault. |
| Repeats.PassesInTurn | cross-cluster-orgs/org-controller/reconcilers/org.go:67-126 | Reconciles in between run one after the other, each from what the one before left. |
| GlobalUserSpec.VisitAdvance | cross-cluster-orgs/org-controller/reconcilers/global_user.go:66-78 | One more turn of the loop extends the specification's run by one visit, or ends it with the first error; this carries the method's loop to the specification. |
| GlobalUserSpec.SweepAdvance | cross-cluster-orgs/org-controller/reconcilers/global_user.go:84-101 | The same for the deletion loop. |
| GlobalUserTheorems.GrantExact | cross-cluster-orgs/org-controller/reconcilers/global_user.go:67-77 | Fault-free, one cluster succeeds if and only if nothing is in the way of any of the user's bindings; success then leaves a store that does not depend on the order of the listing. |
| GlobalUserTheorems.OrderDoesNotMatter | cross-cluster-orgs/org-controller/reconcilers/global_user.go:66-80 | Fault-free, for any two orders of clusters and namespaces: both succeed or both fail, by one condition on the stores, and successes leave identical clusters. |
| GlobalUserTheorems.ReconcileUserBetween | cross-cluster-orgs/org-controller/reconcilers/global_user.go:66-80 | Under any faults every cluster ends between its initial store and that plus the wanted bindings; clusters not reached are untouched. |
| GlobalUserTheorems.ReconcileUserGrows | cross-cluster-orgs/org-controller/reconcilers/global_user.go:66-80 | Under any faults, nothing is removed or altered in any cluster. |
| GlobalUserTheorems.OnlyLabelledNamespacesGain | cross-cluster-orgs/org-controller/reconcilers/global_user.go:66-80 | Under any faults, every binding that a reconcile adds lies in a namespace that carries the org label and binds the user to one of its roles at level global under the name user-role. |
| GlobalUserTheorems.SucceedsExactly | cross-cluster-orgs/org-controller/reconcilers/global_user.go:66-80 | Fault-free success, with every field written out: no labelled namespace has a binding named user-role for any role yet, and where there is one the roles are distinct. |
| GlobalUserTheorems.SuccessGrantsEverywhere | cross-cluster-orgs/org-controller/reconcilers/global_user.go:66-80 | Under any faults, a reconcile that reports success leaves the binding user-role in every labelled namespace of every cluster for every role. |
| GlobalUserTheorems.FirstErrorEndsReconcile | cross-cluster-orgs/org-controller/reconcilers/global_user.go:66-78 | Under any faults the loop stops at its first error: clusters before it are granted, those after it untouched. |
| GlobalUserTheorems.AttemptShrinksMatches | cross-cluster-orgs/org-controller/reconcilers/global_user.go:83-104 | The number of matching bindings never rises in a deletion attempt, and an attempt that does not lower it has changed nothing. |
| GlobalUserTheorems.AttemptSpelledOut | cross-cluster-orgs/org-controller/reconcilers/global_user.go:83-104 | One attempt under any faults deletes only bindings of level global whose first User subject is the user, and all of them if it completes; everything else is unaltered. |
| GlobalUserTheorems.FirstErrorEndsDeletion | cross-cluster-orgs/org-controller/reconcilers/global_user.go:84-101 | Under any faults the deletion loop stops at its first error: clusters after it are untouched. |
| GlobalUserTheorems.DeletesStopAtFirstError | cross-cluster-orgs/org-controller/reconcilers/global_user.go:94-99 | The same for the Delete calls of one cluster. |
| GlobalUserTheorems.DeletionResumes | cross-cluster-orgs/org-controller/reconcilers/global_user.go:83-104 | Any number of attempts, each stopped at any List or Delete, then one that completes, in any orders, end in the store of one uninterrupted attempt: no matching binding is left and everything else is untouched. |
| GlobalUserTheorems.LastAttemptDecides | cross-cluster-orgs/org-controller/reconcilers/global_user.go:83-104 | The same for the deletion of a global user. |
| GlobalUserTheorems.DeletionSpelledOut | cross-cluster-orgs/org-controller/reconcilers/global_user.go:83-104 | After attempts of which the last completes, a binding is there, unaltered, if and only if it was there and lacks role_level global or does not have the user as its first User subject. |
| GlobalUserTheorems.GlobalUserRoundTrip | cross-cluster-orgs/org-controller/reconcilers/global_user.go:83-113 | If no binding had role_level global and the user as its first User subject, a reconcile stopped anywhere, followed by deletion attempts of which the last completes, restores every cluster exactly; bindings of other levels, the user's own included, are kept. |
| Safety.WantedJustified | cross-cluster-orgs/org-controller/reconcilers/org.go:112-123 | All that a space wants is asked for by its org, or by a GlobalUser among those listed. |
| Safety.RunKeepsSafe | cross-cluster-orgs/org-controller/reconcilers/org.go:62-207 | The safety invariant (stores, work ahead of both workers, labels) survives every run of any interleaving with any faults and stale reads. |
| Safety.EveryBindingAccounted | cross-cluster-orgs/org-controller/reconcilers/org.go:62-207 | In every reachable state every binding is named user-role, has the one User subject, a ClusterRole and level global or other, and is asked for by a past spec: global by a past GlobalUser with that role, other by a past Org listing the user for the org or for the space on that cluster with that namespace. |
| Safety.IndexAgreesWithScan | cross-cluster-orgs/org-controller/main.go:26-40 | In every reachable state the index of first User subjects finds exactly the bindings any of whose User subjects has the name. |
| Safety.ErasingOneOrgKeepsTheOthers | cross-cluster-orgs/org-controller/reconcilers/org.go:128-153 | In every reachable state, for any two org names of which none continues the other, and whatever further orgs there are: erasing one leaves every namespace that maps to the other, and the bindings in it, unchanged. |
| Safety.NamespaceCarriesItsOrgsLabel | cross-cluster-orgs/org-controller/reconcilers/org.go:139-153 | In every reachable state a namespace that maps to an org carries that org's label, if every other org that ever existed is separately named. |
| Safety.DashFreeNamesSeparate | cross-cluster-orgs/org-controller/reconcilers/org.go:106 | Two different dash-free org names meet that condition. |
| Winner.CreatedKeepsRace | cross-cluster-orgs/org-controller/reconcilers/org.go:199-201 | A served Create by either worker, successful or not, keeps the race invariant: roles appear in order, from one creator, whose next call fills the gap. |
| Winner.RunKeepsGood | cross-cluster-orgs/org-controller/reconcilers/global_user.go:66-78 | Every fault-free, delete-free interleaving keeps the race invariant, retries included. |
| Winner.OwnersRecordCreators | cross-cluster-orgs/org-controller/reconcilers/org.go:199 | In any step of the machine a binding appears only by a worker's Create call, and the record of owners names that worker. |
| Winner.WinnerTakesAll | cross-cluster-orgs/org-controller/reconcilers/global_user.go:66-78 | For an unchanged global user with distinct roles and no bindings at the start, dash-free user names, and no org or space listing that user: wherever it has a binding, one worker created all of its bindings there, and they are a prefix of its roles which that worker is about to extend; once neither worker is granting, that worker has created all of them. |
| Refinement.OrgWorkerRefines | cross-cluster-orgs/org-controller/reconcilers/org.go:67-80 | The call-by-call Org worker, left alone, leaves the clusters that the loop over the spaces leaves, for any faults. |
| Refinement.UserWorkerRefines | cross-cluster-orgs/org-controller/reconcilers/global_user.go:66-80 | The same for the GlobalUser worker and any order of clusters and listings. |
| Refinement.OrgDeletionRefines | cross-cluster-orgs/org-controller/reconcilers/org.go:128-137 | The same for the deletion of an org. |
| Refinement.UserDeletionRefines | cross-cluster-orgs/org-controller/reconcilers/global_user.go:83-104 | The same for the deletion of a global user. |
| Refinement.OrgReconcileRefines | cross-cluster-orgs/org-controller/reconcilers/org.go:37-81 | From the idle worker on: reading an org and the global users and then running alone does to the clusters what reconciling all its spaces does, for any faults. |
| Refinement.OrgDeletionReconcileRefines | cross-cluster-orgs/org-controller/reconcilers/org.go:46-55 | The same for a Get that finds no org: the deletion loop over all clusters. |
| Refinement.UserReconcileRefines | cross-cluster-orgs/org-controller/reconcilers/global_user.go:41-81 | The same for the GlobalUser worker: the loop over all clusters. |
| Refinement.UserDeletionReconcileRefines | cross-cluster-orgs/org-controller/reconcilers/global_user.go:50-59 | The same for a Get that finds no user. |
| Refinement.WrittenOrgIsReconciled | cross-cluster-orgs/org-controller/reconcilers/org.go:37-81 | Wherever the Org worker is: once an org is written and the worker crashes and starts again, it does what a fresh reconcile of that org does. |
| Refinement.WrittenUserIsReconciled | cross-cluster-orgs/org-controller/reconcilers/global_user.go:41-81 | The same for a global user. |
| Refinement.FirstReconcile | cross-cluster-orgs/org-controller/reconcilers/org.go:37-81 | From empty clusters the machine reaches what the org's spec asks for, under any faults. |
| DeepCopy.CopyOrgList | cross-cluster-orgs/org-controller/pkg/apis/org/v1/zz_generated.deepcopy.go:154-176 | The copy stands for the same value, with nil-ness and lengths at every depth; all of its arrays are fresh and no two are the same, even if the source shares arrays; the source stands for its old value and shares nothing with the copy. The list's and every org's metadata, nil-ness and lengths are stated field by field. |
| DeepCopy.CopyOrgs | cross-cluster-orgs/org-controller/pkg/apis/org/v1/zz_generated.deepcopy.go:158-164 | The same for a slice of orgs, filled by index. |
| DeepCopy.CopyOrg | cross-cluster-orgs/org-controller/pkg/apis/org/v1/zz_generated.deepcopy.go:126-143 | The same for one org and its spec (lines 187-204). |
| DeepCopy.OrgDeepCopyInto | cross-cluster-orgs/org-controller/pkg/apis/org/v1/zz_generated.deepcopy.go:126-133 | Writing through the pointer to an element changes that element only. |
| DeepCopy.CopySpaces | cross-cluster-orgs/org-controller/pkg/apis/org/v1/zz_generated.deepcopy.go:196-202 | The same for a slice of spaces. |
| DeepCopy.SpaceDeepCopyInto | cross-cluster-orgs/org-controller/pkg/apis/org/v1/zz_generated.deepcopy.go:233-243 | Writing one space through a pointer to its element. |
| DeepCopy.CopyUsers | cross-cluster-orgs/org-controller/pkg/apis/org/v1/zz_generated.deepcopy.go:189-195 | The same for a slice of users, of an org or of a space. |
| DeepCopy.UserDeepCopyInto | cross-cluster-orgs/org-controller/pkg/apis/org/v1/zz_generated.deepcopy.go:256-264 | Writing one user through a pointer to its element. |
| DeepCopy.CopyRoles | cross-cluster-orgs/org-controller/pkg/apis/org/v1/zz_generated.deepcopy.go:258-262 | A nil role slice stays nil; any other becomes a fresh array with the same contents. |
| DeepCopy.ValueIsUnique | cross-cluster-orgs/org-controller/pkg/apis/org/v1/zz_generated.deepcopy.go:154-164 | A list in the heap stands for one value only, so "the same value" leaves the copy no freedom. |
| DeepCopy.SameOrgUsers | cross-cluster-orgs/org-controller/pkg/apis/org/v1/zz_generated.deepcopy.go:187-195 | Two lists that stand for the same value have, field by field, the same org metadata and users: nil-ness, lengths, names and roles. |
| DeepCopy.SameOrgSpaces | cross-cluster-orgs/org-controller/pkg/apis/org/v1/zz_generated.deepcopy.go:196-202 | The same for spaces and their users. |
| DeepCopy.ArraysAreApart | cross-cluster-orgs/org-controller/pkg/apis/org/v1/zz_generated.deepcopy.go:158-164 | Where no array occurs twice, no two orgs share a slice of users or spaces, nor their users' roles. |
| DeepCopy.WriteOne | cross-cluster-orgs/org-controller/pkg/apis/org/v1/zz_generated.deepcopy.go:154-164 | Overwriting any string at any depth keeps which arrays are reached; where no array occurs twice, as in a copy, it changes the value in that one place. |
| DeepCopy.WrittenTakesEffect | cross-cluster-orgs/org-controller/pkg/apis/org/v1/zz_generated.deepcopy.go:154-164 | That change is the new text in the place addressed, with every other org, space, user and role as before. |
| DeepCopy.WriteAll | cross-cluster-orgs/org-controller/pkg/apis/org/v1/zz_generated.deepcopy.go:154-164 | Any sequence of such writes through one side, a source that shares arrays included, has no effect on the other side; through a side without shared arrays it has exactly its own effect there. |
| DeepCopy.OtherSideKept | cross-cluster-orgs/org-controller/pkg/apis/org/v1/zz_generated.deepcopy.go:154-164 | Whatever else is written, replaced slices included, a side whose own arrays are not written keeps its value. |
| DeepCopy.ListHasValue | cross-cluster-orgs/org-controller/pkg/apis/org/v1/zz_generated.deepcopy.go:154-164 | Every list in any heap, shared arrays and all, stands for some value, so the copy is promised for every list. |
| Json.SameEverywhere | opa/space-developer.rego:29 | Documents that look the same at every path are equal. |
| Json.SeeAfterRemoveAll | opa/space-developer.rego:27-28 | After removal, exactly the paths at or below a removed one are absent; all others look as before. |
| Json.RemovedEqualExactly | opa/space-developer.rego:26-30 | Two documents are equal after removal if and only if they agree in presence and value at every other path. |
| Json.RemovalIsASet | opa/space-developer.rego:27-28 | Order and repetition of the paths do not matter, and removal is idempotent. |
| Policy.DenyExactly | opa/space-developer.rego:5-30 | OPA denies if and only if the object is a Droplet, the requester is bound to space-developer as User or by a Group, both versions are objects, and they differ at some path outside the three metadata fields. |
| Policy.ForbiddenExactly | opa/space-developer.rego:26-30 | A change is forbidden if and only if both versions are objects and differ at some path not at or below metadata/annotations, metadata/labels or metadata/managedFields. |
| Policy.ViolationExactly | opa-gatekeeper/cf-protect-object.yml:21-47 | The same for Gatekeeper, with its role parameter and without the kind. |
| Policy.BindsSpelledOut | opa/space-developer.rego:12-24 | A binding counts if and only if its roleRef's name is the role and one of its subjects has kind User and the requester's username, or kind Group and one of the requester's groups. |
| Policy.IsSpaceDeveloperSpelledOut | opa/space-developer.rego:12-24 | OPA looks for such a binding with role space-developer anywhere in its collection. |
| Policy.HasRoleSpelledOut | opa-gatekeeper/cf-protect-object.yml:27-41 | Gatekeeper looks for one under rbac.authorization.k8s.io/v1, RoleBinding, of every namespace. |
| Policy.DenyImpliesViolation | opa-gatekeeper/cf-protect-object.yml:21-47 | For every inventory, whichever binding of each name OPA holds: whatever OPA denies, Gatekeeper with role space-developer denies. |
| Policy.PoliciesAgreeExactly | opa-gatekeeper/cf-protect-object.yml:21-47 | The two decide every review of a Droplet alike if and only if no User or Group loses space-developer to a binding of the same name in another namespace. |
| Policy.DistinctNamesLoseNone | opa/space-developer.rego:12-24 | That holds if no binding name is used in two namespaces. |
| Policy.SameNameLosesOne | opa/space-developer.rego:12-24 | It fails for any two namespaces in which one binding name gives the role to two different users: Gatekeeper denies a forbidden change that OPA lets through. |
| Policy.SameRun | opa-gatekeeper/cf-protect-object.yml:21-47 | Over any run of updates by anyone, with bindings that change in between, as long as nobody is lost in that way, the Droplet that Gatekeeper lets through is the one OPA lets through. |
| Policy.AdmittedTakesEffect | opa/space-developer.rego:5-10 | In a run, an update takes effect if and only if the engine does not deny it, judged against the Droplet as it then is. |
| Policy.DropletNeverChanges | opa/space-developer.rego:5-30 | For either engine: over any run of updates by requesters whom the engine finds bound to space-developer, with bindings that change in between, the admitted Droplet stays the same at every path outside the three metadata fields. |
| RoleTable.TrimCutsBlanks | cf-roles-model/parse-roles.awk:1-3 | Trimming removes blanks from both ends, leaves none there, and changes nothing else. |
| RoleTable.BlankExactly | cf-roles-model/parse-roles.awk:1-2 | Blanks are space, tab, carriage return and line feed. |
| RoleTable.FieldsRejoin | cf-roles-model/parse-roles.awk:5 | Joining the fields with bars gives the line again. |
| RoleTable.FieldsPipeFree | cf-roles-model/parse-roles.awk:5 | No field contains a bar; with the line above, the fields are determined. |
| RoleTable.ScannedExactly | cf-roles-model/parse-roles.awk:15-32 | The role is the first non-empty field and the note the last non-empty field if that is a different one, both trimmed. |
| RoleTable.ScannedOrEmpty | cf-roles-model/parse-roles.awk:15-36 | Such fields exist unless all fields are empty, and then role and note are empty. |
| RoleTable.ContainsExactly | cf-roles-model/parse-roles.awk:6 | The start pattern matches anywhere in the line: there is text before and after that completes it. |
| RoleTable.StartsTableExactly | cf-roles-model/parse-roles.awk:6 | The start pattern, as the texts it matches. |
| RoleTable.IsRuleExactly | cf-roles-model/parse-roles.awk:7 | The rule pattern, as the lines it matches: an optional bar, white space, two dashes. |
| RoleTable.IsHeadingExactly | cf-roles-model/parse-roles.awk:9 | The heading pattern: an optional bar, white space, Role or Roles, white space, a bar. |
| RoleTable.IsRowExactly | cf-roles-model/parse-roles.awk:10 | The row pattern: a bar after at least one character. |
| RoleTable.LinePrintsExactly | cf-roles-model/parse-roles.awk:6-40 | A line prints if and only if the table has started, the row pattern matches, none of the earlier ones does, and there is a role; it then prints the role, a bar and the note. |
| RoleTable.PrintedAfterFirstStart | cf-roles-model/parse-roles.awk:6-13 | Nothing is printed before the first start line, and every line after it is printed with the table started. |
| RoleTable.PrintedInTurn | cf-roles-model/parse-roles.awk:10-41 | Once the table has started, lines print independently and in order. |
| RoleTable.ScanFields | cf-roles-model/parse-roles.awk:15-32 | The field loop, with its index flag and its repeated overwriting of the note, finds the role and the note characterised above. |
| RoleTable.ProcessLine | cf-roles-model/parse-roles.awk:6-41 | The first pattern that matches decides; the start flag is set by a start line and never reset; what is printed. |
| RoleTable.Parse | cf-roles-model/parse-roles.awk:5-41 | The whole program prints, in order, what each line prints under the flag left by the lines before it. |
| RoleTable.PrintedGood | cf-roles-model/parse-roles.awk:34-40 | Every printed row is a non-empty trimmed role without bars, a bar, and a trimmed note without bars. |
| RoleTable.RowDeterminesParts | cf-roles-model/parse-roles.awk:39 | A printed row determines its role and its note. |
| RoleTable.PrintedNeverStarts | cf-roles-model/parse-roles.awk:6-41 | No printed row matches the start pattern: its role and note are parts of a line that did not. |
| RoleTable.ReparsePrintsUncaught | cf-roles-model/parse-roles.awk:1-41 | A start line followed by the printed rows prints those rows that no earlier pattern catches. |
| RoleTable.ReparseExactly | cf-roles-model/parse-roles.awk:1-41 | Re-feeding prints the same rows if and only if no printed role, after white space at its start, begins with two dashes or is Role or Roles up to white space at its end. |
| RoleTable.RuleExactly | cf-roles-model/parse-roles.awk:7 | The rule pattern catches a row if and only if its role, after white space, starts with two dashes. |
| RoleTable.HeadingExactly | cf-roles-model/parse-roles.awk:9 | The heading pattern catches a row if and only if its role, after white space, is Role or Roles followed by white space only. |
| RoleTable.CaughtExactly | cf-roles-model/parse-roles.awk:6-9 | For every printable row that is no start line, an earlier pattern catches it if and only if its role is of one of these kinds. |
| RoleTable.LostRolesOccur | cf-roles-model/parse-roles.awk:6-41 | Every such row that two bars in front do not turn into a start line is printed from that line, and prints nothing when fed back. |
| RoleTable.DashesAreLost | cf-roles-model/parse-roles.awk:7 | The line with two bars, two dashes and x, then y as note prints a row that re-parses to nothing. |

## Left out

- Eventual creation of every binding: not claimed, because a partial run stays stuck on AlreadyExists (`Repeats.RepeatChangesNothing` says so).
- Pruning after a spec shrinks: the code has none, so exactness is stated from a namespace without bindings only.
- Manager, cache and client construction, leader election, kubeconfig loading, index registration, logging and error texts.
- Kubernetes name validation, and the termination of a namespace as an asynchronous phase.
- Reads of workload clusters through a lagging cache: namespace and binding Lists see the current store.
- Custom resource deletion is not a step of its own in `Workers`: a Get may report NotFound at any time, which covers it.
- OrgTheorems.OrgRoundTrip: the deletion attempts run with no creates in between; so do those of GlobalUserTheorems.DeletionResumes and GlobalUserTheorems.GlobalUserRoundTrip.
- DeepCopy.CopyOrg: ObjectMeta, TypeMeta and status are one plain value; their own deep copies are library code.
- DeepCopy.WriteOne: overwrites strings; for writes that replace a whole slice, only DeepCopy.OtherSideKept speaks of the other side.
- Deep copies of GlobalUser, GlobalUserList and GlobalUserSpec: the same shape with one level less.
- The DeepCopy and DeepCopyObject wrappers with their nil receivers, slice capacity, slices into larger arrays, and pointers to structs: a struct is a value, a slice a whole array.
- Reconcilers.GetSubjectUserName: takes a RoleBinding; the type assertion on other objects is not modelled.
- Reconcilers.GetClusterClients: what connecting comes to is a parameter; the goroutine that starts the cache is not modelled.
- Policy.PoliciesAgreeExactly: both engines see the same moment of the cluster; replication delays and the match section that limits Gatekeeper to Droplets are not modelled.
- Policy.DropletNeverChanges: updates are objects, as the API server's are; an admitted update that is no object would end the protection.
- Json.SeeAfterRemoveAll: path segments that are array indices, which these policies do not use.
- Full Rego and gawk regular expression semantics: only the rules and patterns of these files.
- `pkg/generated`, `oidc-login-plugin`, `java-client`, `caching`, `process-indexing`: generated code, or network, browser and file calls around short branches.
- Shell, terraform, dex, kind and YAML deployment files, and the finite tables in `cf-roles-model/rbac.yaml` and `cf-roles-model/roles.md`.

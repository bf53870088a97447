/** Org reconciliation as a function of the clusters, and what one space comes to. */
module OrgSpec {
  import opened Names
  import opened Api
  import opened Grants

  datatype SpaceResult = SpaceResult(cluster: Cluster, outcome: Outcome)

  datatype WorldResult = WorldResult(world: World, outcome: Outcome)

  function NamespaceOf(org: Org, space: Space): string {
    Join(org.name, space.name)
  }

  function OrgLabels(org: Org): Labels {
    map[ORG_LABEL := org.name]
  }

  /** The global users, as users of every space. */
  function AsUsers(items: seq<GlobalUser>): (users: seq<User>)
    ensures |users| == |items|
    ensures forall i :: 0 <= i < |items| ==> users[i] == User(items[i].name, items[i].roles)
  {
    seq(|items|, i requires 0 <= i < |items| => User(items[i].name, items[i].roles))
  }

  /** An existing namespace counts as success. */
  function EnsureNamespace(c: Cluster, org: Org, namespace: string): SpaceResult {
    var a := Call(c, AddNamespace(c.store, namespace, OrgLabels(org)));
    SpaceResult(a.cluster,
                if a.status == Ok || a.status == AlreadyExists then Done else Failed(NamespaceFailed(a.status)))
  }

  /** An existing binding counts as failure. */
  function GrantAll(c: Cluster, requests: seq<Request>): SpaceResult {
    var a := Pass(c, requests);
    SpaceResult(a.cluster, if a.status == Ok then Done else Failed(BindingFailed(a.status)))
  }

  function ReconcileSpace(c: Cluster, org: Org, space: Space, globals: seq<User>): SpaceResult {
    var namespace := NamespaceOf(org, space);
    var created := EnsureNamespace(c, org, namespace);
    if created.outcome.Failed? then created
    else
      var granted := GrantAll(created.cluster, Flatten(globals, GLOBAL_LEVEL, namespace));
      if granted.outcome.Failed? then granted
      else GrantAll(granted.cluster, Flatten(org.users + space.users, OTHER_LEVEL, namespace))
  }

  /** The loop over the spaces.  A failing space does not stop it, so the last one decides; an
      unknown cluster does. */
  function ReconcileSpaces(w: World, org: Org, spaces: seq<Space>, globals: seq<User>, last: Outcome): WorldResult
    decreases |spaces|
  {
    if spaces == [] then WorldResult(w, last)
    else if spaces[0].clusterName !in w then WorldResult(w, Failed(UnknownCluster(spaces[0].clusterName)))
    else
      var r := ReconcileSpace(w[spaces[0].clusterName], org, spaces[0], globals);
      ReconcileSpaces(w[spaces[0].clusterName := r.cluster], org, spaces[1..], globals, r.outcome)
  }

  /** DeleteAllOf on each cluster in turn; the first error stops it. */
  function DeleteOrg(w: World, order: seq<string>, name: string): WorldResult
    requires forall cluster <- order :: cluster in w
    decreases |order|
  {
    if order == [] then WorldResult(w, Done)
    else
      var c := w[order[0]];
      var a := Erase(c, ORG_LABEL, name);
      var w' := w[order[0] := a.cluster];
      if a.status != Ok then WorldResult(w', Failed(DeleteFailed(a.status)))
      else DeleteOrg(w', order[1..], name)
  }

  // ---- One space ----

  /** Everything one space asks for, in order. */
  function Wanted(org: Org, space: Space, globals: seq<User>): seq<Request> {
    var namespace := NamespaceOf(org, space);
    Flatten(globals, GLOBAL_LEVEL, namespace)
    + Flatten(org.users, OTHER_LEVEL, namespace)
    + Flatten(space.users, OTHER_LEVEL, namespace)
  }

  lemma WantedInNamespace(org: Org, space: Space, globals: seq<User>)
    ensures forall r <- Wanted(org, space, globals) :: r.namespace == NamespaceOf(org, space)
  {
    var namespace := NamespaceOf(org, space);
    forall r | r in Wanted(org, space, globals) ensures r.namespace == namespace {
      if r in Flatten(globals, GLOBAL_LEVEL, namespace) {
        FlattenMember(globals, GLOBAL_LEVEL, namespace, r);
      } else if r in Flatten(org.users, OTHER_LEVEL, namespace) {
        FlattenMember(org.users, OTHER_LEVEL, namespace, r);
      } else {
        FlattenMember(space.users, OTHER_LEVEL, namespace, r);
      }
    }
  }

  lemma WantedLength(org: Org, space: Space, globals: seq<User>)
    ensures |Wanted(org, space, globals)| == RoleCount(globals) + RoleCount(org.users) + RoleCount(space.users)
  {
    FlattenLength(globals, GLOBAL_LEVEL, NamespaceOf(org, space));
    FlattenLength(org.users, OTHER_LEVEL, NamespaceOf(org, space));
    FlattenLength(space.users, OTHER_LEVEL, NamespaceOf(org, space));
  }

  /** What a space asks for and in which order, spelled out: first the global users' roles at level
      global, user by user and role by role; */
  lemma WantedGlobalRole(org: Org, space: Space, globals: seq<User>, i: nat, j: nat)
    requires i < |globals| && j < |globals[i].roles|
    ensures var wanted, k := Wanted(org, space, globals), RoleCount(globals[..i]) + j;
            && k < RoleCount(globals) <= |wanted|
            && wanted[k] == Request(org.name + "-" + space.name, globals[i].name, globals[i].roles[j], "global")
  {
    WantedLength(org, space, globals);
    FlattenLength(globals, GLOBAL_LEVEL, NamespaceOf(org, space));
    FlattenAt(globals, GLOBAL_LEVEL, NamespaceOf(org, space), i, j);
  }

  /** then the org users' at level other; */
  lemma WantedOrgRole(org: Org, space: Space, globals: seq<User>, i: nat, j: nat)
    requires i < |org.users| && j < |org.users[i].roles|
    ensures var wanted, k := Wanted(org, space, globals), RoleCount(globals) + RoleCount(org.users[..i]) + j;
            && RoleCount(globals) <= k < RoleCount(globals) + RoleCount(org.users) <= |wanted|
            && wanted[k] == Request(org.name + "-" + space.name, org.users[i].name, org.users[i].roles[j], "other")
  {
    WantedLength(org, space, globals);
    FlattenLength(globals, GLOBAL_LEVEL, NamespaceOf(org, space));
    FlattenLength(org.users, OTHER_LEVEL, NamespaceOf(org, space));
    FlattenAt(org.users, OTHER_LEVEL, NamespaceOf(org, space), i, j);
  }

  /** and then the space users' at level other. */
  lemma WantedSpaceRole(org: Org, space: Space, globals: seq<User>, i: nat, j: nat)
    requires i < |space.users| && j < |space.users[i].roles|
    ensures var before := RoleCount(globals) + RoleCount(org.users);
            var wanted, k := Wanted(org, space, globals), before + RoleCount(space.users[..i]) + j;
            && before <= k < |wanted|
            && wanted[k] == Request(org.name + "-" + space.name, space.users[i].name, space.users[i].roles[j], "other")
  {
    var namespace := NamespaceOf(org, space);
    WantedLength(org, space, globals);
    FlattenLength(globals, GLOBAL_LEVEL, namespace);
    FlattenLength(org.users, OTHER_LEVEL, namespace);
    FlattenLength(space.users, OTHER_LEVEL, namespace);
    FlattenAt(space.users, OTHER_LEVEL, namespace, i, j);
  }

  /** The two successive calls with their nested loops are one pass over one list, under any faults. */
  lemma SpaceIsOnePass(c: Cluster, org: Org, space: Space, globals: seq<User>)
    ensures ReconcileSpace(c, org, space, globals)
            == (var created := EnsureNamespace(c, org, NamespaceOf(org, space));
                if created.outcome.Failed? then created
                else GrantAll(created.cluster, Wanted(org, space, globals)))
  {
    var namespace := NamespaceOf(org, space);
    var created := EnsureNamespace(c, org, namespace);
    var first := Flatten(globals, GLOBAL_LEVEL, namespace);
    var second := Flatten(org.users + space.users, OTHER_LEVEL, namespace);
    FlattenAppend(org.users, space.users, OTHER_LEVEL, namespace);
    assert Wanted(org, space, globals) == first + second;
    PassAppend(created.cluster, first, second);
  }

  function WithNamespace(s: Store, namespace: string, labels: Labels): Store {
    if namespace in s.namespaces then s else s.(namespaces := s.namespaces[namespace := labels])
  }

  /** With no faults a space creates its namespace if it is missing, then exactly the longest prefix
      of what it wants whose keys are distinct and absent; it succeeds exactly when that is all. */
  lemma SpaceCreatesLongestFreshPrefix(c: Cluster, org: Org, space: Space, globals: seq<User>, k: nat)
    requires c.faults == []
    requires LongestFreshPrefix(c.store.bindings.Keys, Wanted(org, space, globals), k)
    ensures var r := ReconcileSpace(c, org, space, globals);
            var wanted := Wanted(org, space, globals);
            && r.cluster == Cluster(WithNamespace(c.store, NamespaceOf(org, space), OrgLabels(org))
                                    .(bindings := c.store.bindings + Granted(wanted[..k])), [])
            && (r.outcome.Done? <==> k == |wanted|)
  {
    SpaceIsOnePass(c, org, space, globals);
    WantedInNamespace(org, space, globals);
    var created := EnsureNamespace(c, org, NamespaceOf(org, space)).cluster;
    PassCreatesLongestFreshPrefix(created, Wanted(org, space, globals), k);
  }

  function BindingsIn(s: Store, namespace: string): map<Key, RoleBinding> {
    map key | key in s.bindings && key.namespace == namespace :: s.bindings[key]
  }

  /** Exactly the requested bindings, each under its own key, and as many as there are requests. */
  ghost predicate Exactly(found: map<Key, RoleBinding>, requests: seq<Request>) {
    && (forall q <- requests :: KeyOf(q) in found && found[KeyOf(q)] == BindingOf(q))
    && (forall key <- found :: exists i :: 0 <= i < |requests| && KeyOf(requests[i]) == key)
    && |found| == |requests|
  }

  lemma GrantedExactly(requests: seq<Request>)
    requires DistinctKeys(requests)
    ensures Exactly(Granted(requests), requests)
  {
    GrantedSize(requests);
    forall q | q in requests ensures KeyOf(q) in Granted(requests) && Granted(requests)[KeyOf(q)] == BindingOf(q) {
      GrantedBinding(requests, q);
    }
    forall key | key in Granted(requests) ensures exists i :: 0 <= i < |requests| && KeyOf(requests[i]) == key {
      GrantedKeys(requests, key);
    }
  }

  /** Exact grant: in a namespace without bindings a fault-free space succeeds exactly when the
      wanted keys are pairwise distinct.  It then leaves the wanted bindings and nothing else; there
      are as many as the role lists are long. */
  lemma SpaceGrantsExactly(c: Cluster, org: Org, space: Space, globals: seq<User>)
    requires c.faults == [] && BindingsIn(c.store, NamespaceOf(org, space)) == map[]
    ensures var r := ReconcileSpace(c, org, space, globals);
            var wanted := Wanted(org, space, globals);
            && (r.outcome.Done? <==> DistinctKeys(wanted))
            && (r.outcome.Done? ==> Exactly(BindingsIn(r.cluster.store, NamespaceOf(org, space)), wanted))
            && |wanted| == RoleCount(globals) + RoleCount(org.users) + RoleCount(space.users)
  {
    var namespace, wanted := NamespaceOf(org, space), Wanted(org, space, globals);
    SpaceIsOnePass(c, org, space, globals);
    WantedInNamespace(org, space, globals);
    var created := EnsureNamespace(c, org, namespace).cluster;
    PassAllOrNot(created, wanted);
    EmptyNamespaceTakesNothing(c.store, namespace, wanted);
    if DistinctKeys(wanted) {
      OnlyGranted(created.store, namespace, wanted);
      GrantedExactly(wanted);
    }
    WantedLength(org, space, globals);
  }

  /** Ensuring the namespace, spelled out: an unreachable server is a failure, whether or not the namespace
      was created; an existing namespace is left as it is and is no failure. */
  lemma EnsureSpelledOut(c: Cluster, org: Org, namespace: string)
    ensures var r := EnsureNamespace(c, org, namespace);
            var served := c.faults == [] || c.faults[0] == Served;
            var created := namespace !in c.store.namespaces && (served || c.faults[0] == ReplyLost);
            && r.outcome == (if served then Done else Failed(NamespaceFailed(Unavailable)))
            && r.cluster.store == if created
               then c.store.(namespaces := c.store.namespaces[namespace := map["code.cloudfoundry.org/org" := org.name]])
               else c.store
  {
  }

  /** Under any faults, a space that reports success has its namespace and every wanted binding, none of
      which was there before; a space whose namespace call failed has created no binding. */
  lemma SpaceSuccessIsComplete(c: Cluster, org: Org, space: Space, globals: seq<User>)
    ensures var r := ReconcileSpace(c, org, space, globals);
            && (r.outcome.Done? ==>
                  && org.name + "-" + space.name in r.cluster.store.namespaces
                  && forall q <- Wanted(org, space, globals) ::
                       && Key(q.namespace, q.user + "-" + q.role) !in c.store.bindings
                       && Holds(r.cluster.store, q.namespace, q.user, q.role, q.level))
            && (c.faults != [] && c.faults[0] != Served ==>
                  r.outcome == Failed(NamespaceFailed(Unavailable)) && r.cluster.store.bindings == c.store.bindings)
  {
    var wanted := Wanted(org, space, globals);
    var created := EnsureNamespace(c, org, NamespaceOf(org, space));
    SpaceIsOnePass(c, org, space, globals);
    EnsureSpelledOut(c, org, NamespaceOf(org, space));
    if ReconcileSpace(c, org, space, globals).outcome.Done? {
      PassSuccessIsComplete(created.cluster, wanted);
      PassBounds(created.cluster, wanted);
    }
  }

  /** The same spelled out: the namespace `org-space`, labelled with the org if it was missing, and for
      every listed user and role a binding named user-role, of that User to that ClusterRole, at level
      global for global users and level other for the org's and the space's. */
  lemma SuccessfulSpaceSpelledOut(c: Cluster, org: Org, space: Space, globals: seq<User>)
    requires c.faults == [] && BindingsIn(c.store, NamespaceOf(org, space)) == map[]
    requires ReconcileSpace(c, org, space, globals).outcome.Done?
    ensures var s', namespace := ReconcileSpace(c, org, space, globals).cluster.store, org.name + "-" + space.name;
            && namespace in s'.namespaces
            && s'.namespaces[namespace] == (if namespace in c.store.namespaces then c.store.namespaces[namespace]
                                            else map["code.cloudfoundry.org/org" := org.name])
            && (forall u, role :: u in globals && role in u.roles ==> Holds(s', namespace, u.name, role, "global"))
            && (forall u, role :: (u in org.users || u in space.users) && role in u.roles ==>
                  Holds(s', namespace, u.name, role, "other"))
  {
    var namespace, wanted := NamespaceOf(org, space), Wanted(org, space, globals);
    var s' := ReconcileSpace(c, org, space, globals).cluster.store;
    SpaceGrantsExactly(c, org, space, globals);
    SpaceIsOnePass(c, org, space, globals);
    PassBounds(EnsureNamespace(c, org, namespace).cluster, wanted);
    forall r | r in wanted ensures Holds(s', namespace, r.user, r.role, r.level) {
      WantedInNamespace(org, space, globals);
      assert KeyOf(r) in BindingsIn(s', namespace) && BindingsIn(s', namespace)[KeyOf(r)] == BindingOf(r);
    }
    forall u, role | u in globals && role in u.roles ensures Holds(s', namespace, u.name, role, "global") {
      FlattenHas(globals, u, role, GLOBAL_LEVEL, namespace);
      assert Request(namespace, u.name, role, GLOBAL_LEVEL) in wanted;
    }
    forall u, role | (u in org.users || u in space.users) && role in u.roles
      ensures Holds(s', namespace, u.name, role, "other")
    {
      if u in org.users {
        FlattenHas(org.users, u, role, OTHER_LEVEL, namespace);
      } else {
        FlattenHas(space.users, u, role, OTHER_LEVEL, namespace);
      }
      assert Request(namespace, u.name, role, OTHER_LEVEL) in wanted;
    }
  }

  ghost predicate Holds(s: Store, namespace: string, user: string, role: string, level: string) {
    && Key(namespace, user + "-" + role) in s.bindings
    && s.bindings[Key(namespace, user + "-" + role)]
       == RoleBinding(map["code.cloudfoundry.org/role_level" := level],
                      [Subject("rbac.authorization.k8s.io", "User", user)],
                      RoleRef("rbac.authorization.k8s.io", "ClusterRole", role))
  }

  lemma {:induction false} FlattenHas(users: seq<User>, u: User, role: string, level: string, namespace: string)
    requires u in users && role in u.roles
    ensures Request(namespace, u.name, role, level) in Flatten(users, level, namespace)
  {
    var i :| 0 <= i < |users| && users[i] == u;
    var j :| 0 <= j < |u.roles| && u.roles[j] == role;
    FlattenAt(users, level, namespace, i, j);
  }

  /** Under any faults the loop goes on after a space that failed: the spaces that follow are reconciled
      from what it left, and the last one's outcome is the loop's. */
  lemma {:induction false} FailedSpaceIsPassed(w: World, org: Org, first: seq<Space>, space: Space, globals: seq<User>, last: Outcome)
    requires forall x <- first :: x.clusterName in w
    ensures var before := ReconcileSpaces(w, org, first, globals, last).world;
            var r := ReconcileSpaces(w, org, first + [space], globals, last);
            && before.Keys == w.Keys
            && if space.clusterName !in w then r == WorldResult(before, Failed(UnknownCluster(space.clusterName)))
               else r.outcome == ReconcileSpace(before[space.clusterName], org, space, globals).outcome
                    && r.world == before[space.clusterName :=
                                         ReconcileSpace(before[space.clusterName], org, space, globals).cluster]
    decreases |first|
  {
    if first == [] {
      assert first + [space] == [space] && [space][1..] == [];
    } else {
      assert first[0] in first && (first + [space])[1..] == first[1..] + [space];
      var r0 := ReconcileSpace(w[first[0].clusterName], org, first[0], globals);
      FailedSpaceIsPassed(w[first[0].clusterName := r0.cluster], org, first[1..], space, globals, r0.outcome);
    }
  }

  lemma OnlyGranted(s: Store, namespace: string, requests: seq<Request>)
    requires BindingsIn(s, namespace) == map[]
    requires forall r <- requests :: r.namespace == namespace
    ensures BindingsIn(s.(bindings := s.bindings + Granted(requests)), namespace) == Granted(requests)
  {
    forall key ensures key in s.bindings ==> key.namespace != namespace
      ensures key in Granted(requests) ==> key.namespace == namespace
    {
      GrantedKeys(requests, key);
      assert key in s.bindings && key.namespace == namespace ==> key in BindingsIn(s, namespace);
    }
  }

  lemma EmptyNamespaceTakesNothing(s: Store, namespace: string, requests: seq<Request>)
    requires BindingsIn(s, namespace) == map[]
    requires forall r <- requests :: r.namespace == namespace
    ensures Fresh(s.bindings.Keys, requests) <==> DistinctKeys(requests)
  {
    forall i | 0 <= i < |requests| ensures KeyOf(requests[i]) !in s.bindings {
      assert requests[i] in requests;
      assert KeyOf(requests[i]) !in BindingsIn(s, namespace);
    }
  }

  // ---- What every org reconcile keeps, under any faults ----

  lemma SpaceGrows(c: Cluster, org: Org, space: Space, globals: seq<User>)
    ensures Grows(c.store, ReconcileSpace(c, org, space, globals).cluster.store)
    ensures c.faults == [] ==> ReconcileSpace(c, org, space, globals).cluster.faults == []
  {
    SpaceIsOnePass(c, org, space, globals);
    var created := EnsureNamespace(c, org, NamespaceOf(org, space)).cluster;
    EnsureGrows(c, org, NamespaceOf(org, space));
    PassBounds(created, Wanted(org, space, globals));
    if c.faults == [] {
      PassKeepsFaultFree(created, Wanted(org, space, globals));
    }
  }

  lemma EnsureGrows(c: Cluster, org: Org, namespace: string)
    ensures Grows(c.store, EnsureNamespace(c, org, namespace).cluster.store)
    ensures c.faults == [] ==> EnsureNamespace(c, org, namespace).cluster.faults == []
  {
  }

  lemma {:induction false} SpacesGrow(w: World, org: Org, spaces: seq<Space>, globals: seq<User>, last: Outcome)
    ensures var w' := ReconcileSpaces(w, org, spaces, globals, last).world;
            WorldGrows(w, w') && (FaultFree(w) ==> FaultFree(w'))
    decreases |spaces|
  {
    if spaces != [] && spaces[0].clusterName in w {
      var r := ReconcileSpace(w[spaces[0].clusterName], org, spaces[0], globals);
      SpaceGrows(w[spaces[0].clusterName], org, spaces[0], globals);
      SpacesGrow(w[spaces[0].clusterName := r.cluster], org, spaces[1..], globals, r.outcome);
    }
  }
}

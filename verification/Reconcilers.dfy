/** The two controllers as they run: loops of calls that change the clusters in place, proved against
    the specification functions. */
module Reconcilers {
  import opened Api
  import opened Grants
  import opened OrgSpec
  import opened GlobalUserSpec
  import opened Clients

  /** Different clusters have different clients. */
  ghost predicate Separate(clients: map<string, Client>) {
    forall n, m :: n in clients && m in clients && n != m ==> clients[n] != clients[m]
  }

  ghost function WorldOf(clients: map<string, Client>): World
    reads clients.Values
  {
    map name | name in clients :: clients[name].View()
  }

  /** What the subject index extracts: the first User subject ends the search. */
  method GetSubjectUserName(binding: RoleBinding) returns (names: seq<string>)
    ensures names == FirstUser(binding.subjects)
    ensures names == [] <==> forall subject <- binding.subjects :: subject.kind != USER_KIND
    ensures names != [] ==>
              exists i :: 0 <= i < |binding.subjects| && binding.subjects[i].kind == USER_KIND
                          && names == [binding.subjects[i].name]
                          && forall j :: 0 <= j < i ==> binding.subjects[j].kind != USER_KIND
  {
    for i := 0 to |binding.subjects|
      invariant FirstUser(binding.subjects) == FirstUser(binding.subjects[i..])
      invariant forall j :: 0 <= j < i ==> binding.subjects[j].kind != USER_KIND
    {
      if binding.subjects[i].kind == USER_KIND {
        return [binding.subjects[i].name];
      }
    }
    return [];
  }

  const CLUSTER_NAMES := ["cross-org-1", "cross-org-2"]

  /** What comes of connecting to a cluster. */
  datatype Setup = BadConfig | NoConnection | NoIndex | Ready(cluster: Cluster)

  /** One client for each configured cluster; the first failure ends it. */
  method GetClusterClients(setups: map<string, Setup>) returns (ok: bool, clients: map<string, Client>)
    requires forall name <- CLUSTER_NAMES :: name in setups
    ensures Separate(clients) && fresh(clients.Values)
    ensures ok <==> forall name <- CLUSTER_NAMES :: setups[name].Ready?
    ensures clients.Keys == if ok then {"cross-org-1", "cross-org-2"} else {}
    ensures forall name <- clients :: name in setups && setups[name].Ready? && clients[name].View() == setups[name].cluster
  {
    clients := map[];
    for i := 0 to |CLUSTER_NAMES|
      invariant Separate(clients) && fresh(clients.Values)
      invariant forall name :: name in clients <==> name in CLUSTER_NAMES[..i]
      invariant forall name <- CLUSTER_NAMES[..i] :: setups[name].Ready?
      invariant forall name <- clients :: name in setups && setups[name].Ready? && clients[name].View() == setups[name].cluster
    {
      var name := CLUSTER_NAMES[i];
      if !setups[name].Ready? { return false, map[]; }
      var client := new Client(setups[name].cluster);
      ghost var values := clients.Values;
      clients := clients[name := client];
      assert clients.Values <= values + {client};
    }
    assert CLUSTER_NAMES[..|CLUSTER_NAMES|] == CLUSTER_NAMES == ["cross-org-1", "cross-org-2"];
    assert forall name :: name in clients <==> name in ["cross-org-1", "cross-org-2"];
    ok := true;
  }

  method CreateNamespace(cl: Client, org: Org, namespace: string) returns (outcome: Outcome)
    modifies cl
    ensures SpaceResult(cl.View(), outcome) == EnsureNamespace(old(cl.View()), org, namespace)
  {
    var status := cl.CreateNamespace(namespace, map[ORG_LABEL := org.name]);
    if status == AlreadyExists { return Done; }
    if status != Ok { return Failed(NamespaceFailed(status)); }
    outcome := Done;
  }

  method CreateRoleBindings(cl: Client, users: seq<User>, level: string, namespace: string) returns (outcome: Outcome)
    modifies cl
    ensures SpaceResult(cl.View(), outcome)
            == GrantAll(old(cl.View()), Flatten(users, level, namespace))
  {
    ghost var goal := Pass(cl.View(), Flatten(users, level, namespace));
    for i := 0 to |users|
      invariant goal == Pass(cl.View(), Flatten(users[i..], level, namespace))
    {
      var user := users[i];
      ghost var after := Flatten(users[i + 1..], level, namespace);
      FlattenFrom(users, i, level, namespace);
      for j := 0 to |user.roles|
        invariant goal == Pass(cl.View(), RoleRequests(user.name, user.roles[j..], level, namespace) + after)
      {
        var role := user.roles[j];
        RolesFrom(user.name, user.roles, j, level, namespace, after);
        var status := cl.CreateBinding(
          Key(namespace, user.name + "-" + role),
          RoleBinding(map[ROLE_LEVEL_LABEL := level],
                      [Subject(RBAC_GROUP, USER_KIND, user.name)],
                      RoleRef(RBAC_GROUP, CLUSTER_ROLE_KIND, role)));
        if status != Ok { return Failed(BindingFailed(status)); }
      }
      assert RoleRequests(user.name, user.roles[|user.roles|..], level, namespace) + after == after;
    }
    outcome := Done;
  }

  class OrgReconciler {
    const client: Central
    const clusterClients: map<string, Client>

    constructor (client: Central, clusterClients: map<string, Client>)
      ensures this.client == client && this.clusterClients == clusterClients
    {
      this.client, this.clusterClients := client, clusterClients;
    }

    method Reconcile(name: string)
      returns (outcome: Outcome, ghost items: seq<GlobalUser>, ghost order: seq<string>)
      requires client.Valid() && Separate(clusterClients)
      modifies client`faults, clusterClients.Values
      ensures Enumerates(order, clusterClients.Keys)
      // The Get fails.
      ensures old(client.faults) != [] && old(client.faults)[0] != Served ==>
                outcome == Failed(GetFailed) && WorldOf(clusterClients) == old(WorldOf(clusterClients))
      // The org is gone.
      ensures (old(client.faults) == [] || old(client.faults)[0] == Served) && name !in client.orgs ==>
                WorldResult(WorldOf(clusterClients), outcome) == DeleteOrg(old(WorldOf(clusterClients)), order, name)
      // The List fails.
      ensures |old(client.faults)| > 1 && old(client.faults)[0] == Served && old(client.faults)[1] != Served
              && name in client.orgs ==>
                outcome == Failed(ListFailed) && WorldOf(clusterClients) == old(WorldOf(clusterClients))
      // Both reads are served.
      ensures (forall i :: 0 <= i < |old(client.faults)| && i < 2 ==> old(client.faults)[i] == Served)
              && name in client.orgs ==>
                && ListsUsers(items, client.globalUsers)
                && (forall g :: g in items <==> g.name in client.globalUsers && client.globalUsers[g.name] == g)
                && WorldResult(WorldOf(clusterClients), outcome)
                   == ReconcileSpaces(old(WorldOf(clusterClients)), client.orgs[name], client.orgs[name].spaces,
                                      AsUsers(items), Done)
    {
      items := [];
      order := Range(clusterClients.Keys);
      var status, org := client.GetOrg(name);
      if status != Ok {
        if status == NotFound {
          outcome, order := ReconcileDeletedOrg(name);
          return;
        }
        outcome := Failed(GetFailed);
        return;
      }
      var globalUsers: seq<User>;
      status, globalUsers, items := GetGlobalUsers();
      if status != Ok {
        outcome := Failed(ListFailed);
        return;
      }
      ghost var goal := ReconcileSpaces(WorldOf(clusterClients), org, org.spaces, globalUsers, Done);
      outcome := Done;
      for i := 0 to |org.spaces|
        invariant goal == ReconcileSpaces(WorldOf(clusterClients), org, org.spaces[i..], globalUsers, outcome)
      {
        var space := org.spaces[i];
        assert org.spaces[i..][1..] == org.spaces[i + 1..];
        if space.clusterName !in clusterClients {
          outcome := Failed(UnknownCluster(space.clusterName));
          return;
        }
        ghost var before := WorldOf(clusterClients);
        outcome := ReconcileSpace(clusterClients[space.clusterName], org, space, globalUsers);
        OneClusterChanged(before, WorldOf(clusterClients), space.clusterName);
      }
    }

    method GetGlobalUsers() returns (status: Status, users: seq<User>, ghost items: seq<GlobalUser>)
      requires client.Valid()
      modifies client`faults
      ensures client.faults == if old(client.faults) == [] then [] else old(client.faults)[1..]
      ensures status == if old(client.faults) != [] && old(client.faults)[0] != Served then Unavailable else Ok
      ensures status == Ok ==> ListsUsers(items, client.globalUsers) && users == AsUsers(items)
      ensures status == Ok ==>
                forall g :: g in items <==> g.name in client.globalUsers && client.globalUsers[g.name] == g
      ensures status == Ok ==>
                && (forall i, j :: 0 <= i < j < |users| ==> users[i].name != users[j].name)
                && (forall u <- users :: u.name in client.globalUsers && u.roles == client.globalUsers[u.name].roles)
                && (forall name <- client.globalUsers :: User(name, client.globalUsers[name].roles) in users)
    {
      var globalUsers;
      status, globalUsers := client.ListGlobalUsers();
      items, users := globalUsers, [];
      if status != Ok { return; }
      for i := 0 to |globalUsers|
        invariant users == AsUsers(globalUsers[..i])
      {
        users := users + [User(globalUsers[i].name, globalUsers[i].roles)];
      }
      assert globalUsers[..|globalUsers|] == globalUsers;
      forall name | name in client.globalUsers ensures User(name, client.globalUsers[name].roles) in users {
        assert client.globalUsers[name] in globalUsers;
        var i :| 0 <= i < |globalUsers| && globalUsers[i] == client.globalUsers[name];
        assert users[i] == User(name, client.globalUsers[name].roles);
      }
    }

    method ReconcileSpace(cl: Client, org: Org, space: Space, globalUsers: seq<User>) returns (outcome: Outcome)
      modifies cl
      ensures SpaceResult(cl.View(), outcome) == OrgSpec.ReconcileSpace(old(cl.View()), org, space, globalUsers)
    {
      var namespace := org.name + "-" + space.name;
      outcome := CreateNamespace(cl, org, namespace);
      if outcome.Failed? { return; }
      outcome := CreateRoleBindings(cl, globalUsers, GLOBAL_LEVEL, namespace);
      if outcome.Failed? { return; }
      var users := [];
      users := users + org.users;
      users := users + space.users;
      assert users == org.users + space.users;
      outcome := CreateRoleBindings(cl, users, OTHER_LEVEL, namespace);
    }

    method ReconcileDeletedOrg(name: string) returns (outcome: Outcome, ghost order: seq<string>)
      requires Separate(clusterClients)
      modifies clusterClients.Values
      ensures Enumerates(order, clusterClients.Keys)
      ensures WorldResult(WorldOf(clusterClients), outcome) == DeleteOrg(old(WorldOf(clusterClients)), order, name)
    {
      var range := Range(clusterClients.Keys);
      order := range;
      ghost var goal := DeleteOrg(WorldOf(clusterClients), order, name);
      for i := 0 to |range|
        invariant forall cluster <- range[i..] :: cluster in clusterClients
        invariant goal == DeleteOrg(WorldOf(clusterClients), range[i..], name)
      {
        assert range[i..][1..] == range[i + 1..] && range[i] in range[i..];
        ghost var before := WorldOf(clusterClients);
        var status := clusterClients[range[i]].DeleteNamespaces(ORG_LABEL, name);
        OneClusterChanged(before, WorldOf(clusterClients), range[i]);
        if status != Ok { return Failed(DeleteFailed(status)), order; }
      }
      outcome := Done;
    }
  }

  /** Some enumeration of a set, for the listings of clusters a failed loop never reached. */
  ghost function SomeOrder<T(!new)>(s: set<T>): (order: seq<T>)
    ensures Enumerates(order, s)
  {
    if s == {} then [] else
      var x :| x in s;
      [x] + SomeOrder(s - {x})
  }

  /** A loop over `range` in which every List still has some correct result to return. */
  ghost function SomeVisits(w: World, range: seq<string>): (visits: seq<Visit>)
    requires Enumerates(range, w.Keys)
    ensures VisitNames(visits) == range && ValidVisits(w, visits)
  {
    var visits := seq(|range|, i requires 0 <= i < |range| =>
      assert range[i] in range;
      Visit(range[i], SomeOrder(CfNamespaces(w[range[i]].store))));
    assert VisitNames(visits) == range;
    visits
  }

  ghost function SomeSweeps(w: World, range: seq<string>, user: string): (sweeps: seq<Sweep>)
    requires Enumerates(range, w.Keys)
    ensures SweepNames(sweeps) == range && ValidSweeps(w, sweeps, user)
  {
    var sweeps := seq(|range|, i requires 0 <= i < |range| =>
      assert range[i] in range;
      Sweep(range[i], SomeOrder(Matches(w[range[i]].store, user))));
    assert SweepNames(sweeps) == range;
    sweeps
  }

  class GlobalUserReconciler {
    const client: Central
    const clusterClients: map<string, Client>

    constructor (client: Central, clusterClients: map<string, Client>)
      ensures this.client == client && this.clusterClients == clusterClients
    {
      this.client, this.clusterClients := client, clusterClients;
    }

    method Reconcile(name: string)
      returns (outcome: Outcome, ghost visits: seq<Visit>, ghost sweeps: seq<Sweep>)
      requires client.Valid() && Separate(clusterClients)
      modifies client`faults, clusterClients.Values
      // The Get fails.
      ensures old(client.faults) != [] && old(client.faults)[0] != Served ==>
                outcome == Failed(GetFailed) && WorldOf(clusterClients) == old(WorldOf(clusterClients))
      // The user is gone.
      ensures (old(client.faults) == [] || old(client.faults)[0] == Served) && name !in client.globalUsers ==>
                && ValidSweeps(old(WorldOf(clusterClients)), sweeps, name)
                && WorldResult(WorldOf(clusterClients), outcome) == DeleteUser(old(WorldOf(clusterClients)), sweeps)
      // The user is there.
      ensures (old(client.faults) == [] || old(client.faults)[0] == Served) && name in client.globalUsers ==>
                && ValidVisits(old(WorldOf(clusterClients)), visits)
                && WorldResult(WorldOf(clusterClients), outcome)
                   == ReconcileUser(old(WorldOf(clusterClients)), client.globalUsers[name], visits)
    {
      visits, sweeps := [], [];
      var status, globalUser := client.GetGlobalUser(name);
      if status != Ok {
        if status == NotFound {
          outcome, sweeps := ReconcileDeletedGlobalUser(name);
          return;
        }
        outcome := Failed(GetFailed);
        return;
      }
      outcome, visits := ReconcileAllClusters(globalUser);
    }

    /** The loop over the clusters. */
    method ReconcileAllClusters(globalUser: GlobalUser) returns (outcome: Outcome, ghost visits: seq<Visit>)
      requires Separate(clusterClients)
      modifies clusterClients.Values
      ensures ValidVisits(old(WorldOf(clusterClients)), visits)
      ensures WorldResult(WorldOf(clusterClients), outcome)
              == ReconcileUser(old(WorldOf(clusterClients)), globalUser, visits)
    {
      ghost var w := WorldOf(clusterClients);
      var range := Range(clusterClients.Keys);
      visits := SomeVisits(w, range);
      for i := 0 to |range|
        invariant VisitedSoFar(w, globalUser, visits, range, i, WorldOf(clusterClients))
      {
        ghost var now := WorldOf(clusterClients);
        ghost var listing;
        outcome, listing := ReconcileCluster(clusterClients[range[i]], globalUser);
        VisitTurn(w, globalUser, visits, range, i, now, listing, WorldOf(clusterClients), outcome);
        visits := visits[i := Visit(range[i], listing)];
        if outcome.Failed? { return; }
      }
      VisitedAll(w, globalUser, visits, range, WorldOf(clusterClients));
      outcome := Done;
    }

    /** The body of the loop over the clusters. */
    method ReconcileCluster(cl: Client, globalUser: GlobalUser) returns (outcome: Outcome, ghost listing: seq<string>)
      modifies cl
      ensures Enumerates(listing, CfNamespaces(old(cl.View()).store))
      ensures SpaceResult(cl.View(), outcome) == Grant(old(cl.View()), globalUser, listing)
    {
      listing := SomeOrder(CfNamespaces(cl.View().store));
      var status, cfNamespaces := GetCfNamespaces(cl);
      if status != Ok {
        outcome := Failed(ListFailed);
        return;
      }
      listing := cfNamespaces;
      ghost var goal := Pass(cl.View(), UserRequests(globalUser, cfNamespaces));
      for i := 0 to |cfNamespaces|
        invariant goal == Pass(cl.View(), UserRequests(globalUser, cfNamespaces[i..]))
      {
        assert cfNamespaces[i..][1..] == cfNamespaces[i + 1..];
        PassAppend(cl.View(),
                   RoleRequests(globalUser.name, globalUser.roles, GLOBAL_LEVEL, cfNamespaces[i]),
                   UserRequests(globalUser, cfNamespaces[i + 1..]));
        outcome := ReconcileGlobalUserInNamespace(cl, cfNamespaces[i], globalUser);
        if outcome.Failed? { return; }
      }
      outcome := Done;
    }

    method ReconcileGlobalUserInNamespace(cl: Client, cfNs: string, globalUser: GlobalUser) returns (outcome: Outcome)
      modifies cl
      ensures SpaceResult(cl.View(), outcome)
              == GrantAll(old(cl.View()), RoleRequests(globalUser.name, globalUser.roles, GLOBAL_LEVEL, cfNs))
    {
      var user := User(globalUser.name, globalUser.roles);
      assert Flatten([user], GLOBAL_LEVEL, cfNs) == RoleRequests(user.name, user.roles, GLOBAL_LEVEL, cfNs);
      outcome := CreateRoleBindings(cl, [user], GLOBAL_LEVEL, cfNs);
    }

    method GetCfNamespaces(cl: Client) returns (status: Status, namespaces: seq<string>)
      modifies cl`faults
      ensures Answer(cl.View(), status) == List(old(cl.View()))
      ensures status == Ok ==> Enumerates(namespaces, CfNamespaces(cl.View().store))
      ensures status == if old(cl.faults) == [] || old(cl.faults)[0] == Served then Ok else Unavailable
      ensures status == Ok ==>
                && (forall name :: name in namespaces <==>
                      name in cl.namespaces && "code.cloudfoundry.org/org" in cl.namespaces[name])
                && (forall i, j :: 0 <= i < j < |namespaces| ==> namespaces[i] != namespaces[j])
    {
      var nsList;
      status, nsList := cl.ListCfNamespaces();
      namespaces := [];
      if status != Ok { return; }
      for i := 0 to |nsList|
        invariant namespaces == nsList[..i]
      {
        namespaces := namespaces + [nsList[i]];
      }
    }

    method ReconcileDeletedGlobalUser(name: string) returns (outcome: Outcome, ghost sweeps: seq<Sweep>)
      requires Separate(clusterClients)
      modifies clusterClients.Values
      ensures ValidSweeps(old(WorldOf(clusterClients)), sweeps, name)
      ensures WorldResult(WorldOf(clusterClients), outcome) == DeleteUser(old(WorldOf(clusterClients)), sweeps)
    {
      ghost var w := WorldOf(clusterClients);
      var range := Range(clusterClients.Keys);
      sweeps := SomeSweeps(w, range, name);
      for i := 0 to |range|
        invariant SweptSoFar(w, name, sweeps, range, i, WorldOf(clusterClients))
      {
        ghost var now := WorldOf(clusterClients);
        ghost var listing;
        outcome, listing := DeleteOnCluster(clusterClients[range[i]], name);
        SweepTurn(w, name, sweeps, range, i, now, listing, WorldOf(clusterClients), outcome);
        sweeps := sweeps[i := Sweep(range[i], listing)];
        if outcome.Failed? { return; }
      }
      SweptAll(w, name, sweeps, range, WorldOf(clusterClients));
      outcome := Done;
    }

    /** The body of the deletion loop over the clusters. */
    method DeleteOnCluster(cl: Client, name: string) returns (outcome: Outcome, ghost listing: seq<Key>)
      modifies cl
      ensures Enumerates(listing, Matches(old(cl.View()).store, name))
      ensures SpaceResult(cl.View(), outcome) == Purge(old(cl.View()), listing)
    {
      listing := SomeOrder(Matches(cl.View().store, name));
      var status, roleBindings := cl.ListGlobalBindings(name);
      if status != Ok {
        outcome := Failed(ListFailed);
        return;
      }
      listing := roleBindings;
      ghost var goal := DeleteKeys(cl.View(), roleBindings);
      for i := 0 to |roleBindings|
        invariant goal == DeleteKeys(cl.View(), roleBindings[i..])
      {
        assert roleBindings[i..][1..] == roleBindings[i + 1..];
        status := cl.DeleteBinding(roleBindings[i]);
        if status != Ok {
          outcome := Failed(DeleteFailed(status));
          return;
        }
      }
      outcome := Done;
    }
  }
}

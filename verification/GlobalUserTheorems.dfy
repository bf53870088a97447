/** What whole global-user reconciles guarantee: the order of maps and lists does not matter,
    deletion resumes after any failure, and deletion undoes creation. */
module GlobalUserTheorems {
  import opened Names
  import opened Api
  import opened Grants
  import opened OrgSpec
  import opened GlobalUserSpec

  // ---- The order of clusters and namespaces ----

  lemma {:induction false} UserRequestsMember(user: GlobalUser, listing: seq<string>, r: Request)
    ensures r in UserRequests(user, listing)
            <==> r.namespace in listing && r.user == user.name && r.role in user.roles && r.level == GLOBAL_LEVEL
  {
    if listing != [] {
      UserRequestsMember(user, listing[1..], r);
      var block := RoleRequests(user.name, user.roles, GLOBAL_LEVEL, listing[0]);
      if r.namespace == listing[0] && r.user == user.name && r.role in user.roles && r.level == GLOBAL_LEVEL {
        var i :| 0 <= i < |user.roles| && user.roles[i] == r.role;
        assert block[i] == r;
      }
    }
  }

  /** None of the user's keys is taken in any of these namespaces. */
  ghost predicate Untaken(taken: set<Key>, user: GlobalUser, namespaces: set<string>) {
    forall namespace, role :: namespace in namespaces && role in user.roles ==>
                                Key(namespace, Join(user.name, role)) !in taken
  }

  /** Nothing stands in the way of the user in this cluster. */
  ghost predicate ClearFor(s: Store, user: GlobalUser) {
    && (CfNamespaces(s) != {} ==> DistinctRoles(user.roles))
    && Untaken(s.bindings.Keys, user, CfNamespaces(s))
  }

  function AsSet(listing: seq<string>): set<string> {
    set name | name in listing
  }

  ghost predicate NoRepeats(listing: seq<string>) {
    forall i, j :: 0 <= i < j < |listing| ==> listing[i] != listing[j]
  }

  lemma UntakenSplit(taken: set<Key>, user: GlobalUser, head: string, rest: seq<string>)
    ensures Untaken(taken, user, AsSet([head] + rest))
            <==> Untaken(taken, user, {head}) && Untaken(taken, user, AsSet(rest))
  {
    assert AsSet([head] + rest) == {head} + AsSet(rest);
  }

  lemma LaterNamespaces(user: GlobalUser, head: string, rest: seq<string>)
    requires NoRepeats([head] + rest)
    ensures NoRepeats(rest)
    ensures forall r <- UserRequests(user, rest) :: r.namespace != head
  {
    var all := [head] + rest;
    assert forall i :: 0 <= i < |rest| ==> rest[i] == all[i + 1];
    forall i | 0 <= i < |rest| ensures rest[i] != head {
      assert all[0] != all[i + 1];
    }
    forall r | r in UserRequests(user, rest) ensures r.namespace != head {
      UserRequestsMember(user, rest, r);
    }
  }

  lemma {:induction false} UserRequestsFresh(taken: set<Key>, user: GlobalUser, listing: seq<string>)
    requires NoRepeats(listing)
    ensures Fresh(taken, UserRequests(user, listing))
            <==> (listing != [] ==> DistinctRoles(user.roles)) && Untaken(taken, user, AsSet(listing))
  {
    if listing != [] {
      var head, rest := listing[0], listing[1..];
      var block := RoleRequests(user.name, user.roles, GLOBAL_LEVEL, head);
      assert listing == [head] + rest;
      LaterNamespaces(user, head, rest);
      UserRequestsFresh(taken, user, rest);
      assert Fresh(taken, block + UserRequests(user, rest))
             <==> Fresh(taken, block) && Fresh(taken, UserRequests(user, rest)) by {
        forall r | r in block ensures r.namespace == head {
        }
        FreshAppend(taken, block, UserRequests(user, rest));
      }
      BlockFresh(taken, user, head);
      UntakenSplit(taken, user, head, rest);
    }
  }

  lemma FreshAppend(taken: set<Key>, first: seq<Request>, second: seq<Request>)
    requires forall p, q :: p in first && q in second ==> p.namespace != q.namespace
    ensures Fresh(taken, first + second) <==> Fresh(taken, first) && Fresh(taken, second)
  {
    var all := first + second;
    assert forall i :: 0 <= i < |second| ==> second[i] == all[|first| + i];
    assert forall i :: 0 <= i < |first| ==> first[i] == all[i];
    if Fresh(taken, first) && Fresh(taken, second) {
      forall i, j | 0 <= i < j < |all| ensures KeyOf(all[i]) != KeyOf(all[j]) {
        if j < |first| {
        } else if i < |first| {
          assert all[i] in first && all[j] == second[j - |first|] && all[j] in second;
        } else {
          assert all[i] == second[i - |first|] && all[j] == second[j - |first|];
        }
      }
    }
  }

  lemma BlockFresh(taken: set<Key>, user: GlobalUser, namespace: string)
    ensures Fresh(taken, RoleRequests(user.name, user.roles, GLOBAL_LEVEL, namespace))
            <==> DistinctRoles(user.roles) && Untaken(taken, user, {namespace})
  {
    var roles := user.roles;
    var block := RoleRequests(user.name, roles, GLOBAL_LEVEL, namespace);
    assert forall i :: 0 <= i < |roles| ==> KeyOf(block[i]) == Key(namespace, Join(user.name, roles[i]));
    forall i, j | 0 <= i < j < |roles| ensures KeyOf(block[i]) != KeyOf(block[j]) <==> roles[i] != roles[j] {
      RoleOfKey(user.name, roles[i]);
      RoleOfKey(user.name, roles[j]);
    }
  }

  /** The role that a binding name of this user stands for. */
  function RoleOf(user: string, name: string): string
    requires |user| < |name|
  {
    name[|user| + 1..]
  }

  lemma RoleOfKey(user: string, role: string)
    ensures RoleOf(user, Join(user, role)) == role
  {
  }

  function UserKeys(s: Store, user: GlobalUser): set<Key> {
    set namespace, role | namespace in CfNamespaces(s) && role in user.roles :: Key(namespace, Join(user.name, role))
  }

  /** The user's bindings for every role in every Cloud Foundry namespace. */
  function UserBindings(s: Store, user: GlobalUser): map<Key, RoleBinding> {
    map key | key in UserKeys(s, user) ::
      BindingOf(Request(key.namespace, user.name, RoleOf(user.name, key.name), GLOBAL_LEVEL))
  }

  /** The store once the user has them. */
  function WithUser(s: Store, user: GlobalUser): Store {
    s.(bindings := s.bindings + UserBindings(s, user))
  }

  /** With no faults one cluster succeeds exactly when nothing is in the way, and success does not
      depend on the order of the listing. */
  lemma GrantExact(c: Cluster, user: GlobalUser, listing: seq<string>)
    requires c.faults == [] && Enumerates(listing, CfNamespaces(c.store))
    ensures var r := Grant(c, user, listing);
            && (r.outcome.Done? <==> ClearFor(c.store, user))
            && (r.outcome.Done? ==> r.cluster == Cluster(WithUser(c.store, user), []))
  {
    var requests := UserRequests(user, listing);
    forall r | r in requests ensures r.namespace in c.store.namespaces {
      UserRequestsMember(user, listing, r);
    }
    PassAllOrNot(c, requests);
    ClearExactly(c.store, user, listing);
    if Fresh(c.store.bindings.Keys, requests) {
      GrantedIsWithUser(c.store, user, listing);
    }
  }

  lemma ClearExactly(s: Store, user: GlobalUser, listing: seq<string>)
    requires Enumerates(listing, CfNamespaces(s))
    ensures Fresh(s.bindings.Keys, UserRequests(user, listing)) <==> ClearFor(s, user)
  {
    assert AsSet(listing) == CfNamespaces(s);
    assert listing == [] <==> CfNamespaces(s) == {} by {
      assert listing != [] ==> listing[0] in AsSet(listing);
    }
    UserRequestsFresh(s.bindings.Keys, user, listing);
  }

  lemma GrantedUserKeys(s: Store, user: GlobalUser, listing: seq<string>, key: Key)
    requires Enumerates(listing, CfNamespaces(s))
    ensures key in Granted(UserRequests(user, listing)) <==> key in UserKeys(s, user)
  {
    var requests := UserRequests(user, listing);
    GrantedKeys(requests, key);
    if i :| 0 <= i < |requests| && KeyOf(requests[i]) == key {
      UserRequestsMember(user, listing, requests[i]);
    }
    if namespace, role :| namespace in CfNamespaces(s) && role in user.roles && key == Key(namespace, Join(user.name, role)) {
      UserRequestsMember(user, listing, Request(namespace, user.name, role, GLOBAL_LEVEL));
    }
  }

  lemma GrantedUserBinding(user: GlobalUser, listing: seq<string>, key: Key)
    requires DistinctKeys(UserRequests(user, listing)) && key in Granted(UserRequests(user, listing))
    ensures |user.name| < |key.name|
    ensures Granted(UserRequests(user, listing))[key]
            == BindingOf(Request(key.namespace, user.name, RoleOf(user.name, key.name), GLOBAL_LEVEL))
  {
    var requests := UserRequests(user, listing);
    GrantedKeys(requests, key);
    var i :| 0 <= i < |requests| && KeyOf(requests[i]) == key;
    UserRequestsMember(user, listing, requests[i]);
    GrantedBinding(requests, requests[i]);
    RoleOfKey(user.name, requests[i].role);
  }

  lemma GrantedAreUserBindings(s: Store, user: GlobalUser, listing: seq<string>)
    requires Enumerates(listing, CfNamespaces(s)) && DistinctKeys(UserRequests(user, listing))
    ensures Granted(UserRequests(user, listing)) == UserBindings(s, user)
  {
    var granted, wanted := Granted(UserRequests(user, listing)), UserBindings(s, user);
    SameUserKeys(s, user, listing);
    forall key | key in granted ensures granted[key] == wanted[key] {
      GrantedUserBinding(user, listing, key);
    }
    assert granted == wanted;
  }

  lemma SameUserKeys(s: Store, user: GlobalUser, listing: seq<string>)
    requires Enumerates(listing, CfNamespaces(s))
    ensures Granted(UserRequests(user, listing)).Keys == UserBindings(s, user).Keys
  {
    var granted := Granted(UserRequests(user, listing));
    forall key ensures key in granted.Keys <==> key in UserKeys(s, user) {
      GrantedUserKeys(s, user, listing, key);
    }
  }

  lemma GrantedIsWithUser(s: Store, user: GlobalUser, listing: seq<string>)
    requires Enumerates(listing, CfNamespaces(s)) && DistinctKeys(UserRequests(user, listing))
    ensures s.(bindings := s.bindings + Granted(UserRequests(user, listing))) == WithUser(s, user)
  {
    GrantedAreUserBindings(s, user, listing);
  }

  /** The clusters once the user is granted in the visited ones. */
  function GrantedIn(w: World, user: GlobalUser, names: set<string>): World {
    map name | name in w :: if name in names then Cluster(WithUser(w[name].store, user), []) else w[name]
  }

  /** What the rest of the loop finds after the first visit has changed its own cluster. */
  lemma AfterFirstVisit(w: World, visits: seq<Visit>, c: Cluster)
    requires visits != [] && DistinctVisits(visits) && CorrectListings(w, visits)
    ensures var head, rest := visits[0], visits[1..];
            var w1 := w[head.cluster := c];
            && head in visits && head.cluster in w
            && DistinctVisits(rest) && CorrectListings(w1, rest)
            && (forall v <- rest :: v in visits && v.cluster in w && v.cluster != head.cluster)
            && Visited(visits) == {head.cluster} + Visited(rest) && head.cluster !in Visited(rest)
  {
    var head, rest := visits[0], visits[1..];
    assert head in visits;
    forall v | v in rest ensures v in visits && v.cluster != head.cluster {
      var i :| 0 <= i < |rest| && rest[i] == v;
      assert visits[i + 1] == v;
    }
  }

  ghost predicate ClearIn(w: World, user: GlobalUser, visits: seq<Visit>) {
    forall v <- visits :: v.cluster in w && ClearFor(w[v.cluster].store, user)
  }

  lemma ClearInTail(w: World, user: GlobalUser, visits: seq<Visit>, c: Cluster)
    requires visits != [] && DistinctVisits(visits) && CorrectListings(w, visits)
    ensures visits[0] in visits
    ensures ClearIn(w, user, visits)
            <==> ClearFor(w[visits[0].cluster].store, user)
                 && ClearIn(w[visits[0].cluster := c], user, visits[1..])
  {
    AfterFirstVisit(w, visits, c);
    assert forall v <- visits :: v == visits[0] || v in visits[1..];
  }

  lemma GrantedInTail(w: World, user: GlobalUser, head: string, rest: set<string>)
    requires head in w && head !in rest
    ensures GrantedIn(w[head := Cluster(WithUser(w[head].store, user), [])], user, rest)
            == GrantedIn(w, user, {head} + rest)
  {
  }

  lemma {:induction false} ReconcileUserExact(w: World, user: GlobalUser, visits: seq<Visit>)
    requires FaultFree(w) && DistinctVisits(visits) && CorrectListings(w, visits)
    ensures var r := ReconcileUser(w, user, visits);
            && (r.outcome.Done? <==> ClearIn(w, user, visits))
            && (r.outcome.Done? ==> r.world == GrantedIn(w, user, Visited(visits)))
    decreases |visits|
  {
    if visits == [] {
      assert GrantedIn(w, user, Visited(visits)) == w;
    } else {
      var head, rest := visits[0], visits[1..];
      AfterFirstVisit(w, visits, w[visits[0].cluster]);
      var r0 := Grant(w[head.cluster], user, head.listing);
      GrantExact(w[head.cluster], user, head.listing);
      ClearInTail(w, user, visits, r0.cluster);
      if r0.outcome.Done? {
        var w1 := w[head.cluster := r0.cluster];
        AfterFirstVisit(w, visits, r0.cluster);
        ReconcileUserExact(w1, user, rest);
        GrantedInTail(w, user, head.cluster, Visited(rest));
      }
    }
  }

  /** With no faults, a reconcile succeeds exactly when nothing is in the way in any cluster, and
      then leaves one and the same world, whatever order the clusters and namespaces came in. */
  lemma OrderDoesNotMatter(w: World, user: GlobalUser, visits: seq<Visit>, visits': seq<Visit>)
    requires FaultFree(w) && ValidVisits(w, visits) && ValidVisits(w, visits')
    ensures var r, r' := ReconcileUser(w, user, visits), ReconcileUser(w, user, visits');
            && (r.outcome.Done? <==> forall name <- w :: ClearFor(w[name].store, user))
            && (r'.outcome.Done? <==> r.outcome.Done?)
            && (r.outcome.Done? ==> r'.world == r.world == GrantedIn(w, user, w.Keys))
  {
    ValidVisitsVisitAll(w, visits);
    ValidVisitsVisitAll(w, visits');
    ReconcileUserExact(w, user, visits);
    ReconcileUserExact(w, user, visits');
    VisitedClear(w, user, visits);
    VisitedClear(w, user, visits');
  }

  lemma VisitedClear(w: World, user: GlobalUser, visits: seq<Visit>)
    requires CorrectListings(w, visits) && Visited(visits) == w.Keys
    ensures ClearIn(w, user, visits) <==> forall name <- w :: ClearFor(w[name].store, user)
  {
    forall name | name in w ensures exists v :: v in visits && v.cluster == name {
      assert name in Visited(visits);
    }
  }

  lemma ValidVisitsVisitAll(w: World, visits: seq<Visit>)
    requires ValidVisits(w, visits)
    ensures DistinctVisits(visits) && CorrectListings(w, visits) && Visited(visits) == w.Keys
  {
    var names := VisitNames(visits);
    forall i, j | 0 <= i < j < |visits| ensures visits[i].cluster != visits[j].cluster {
      assert names[i] != names[j];
    }
    forall name | name in w ensures name in Visited(visits) {
      assert name in names;
      var i :| 0 <= i < |names| && names[i] == name;
      assert visits[i] in visits;
    }
  }

  // ---- Whatever goes wrong, a reconcile stays between nothing and everything ----

  /** `s'` is `s` with some of the user's wanted bindings added. */
  ghost predicate Between(s: Store, s': Store, user: GlobalUser) {
    && Grows(s, s') && s'.namespaces == s.namespaces
    && forall key <- s'.bindings :: key in s.bindings || (key in UserKeys(s, user) && IsGrantOf(s'.bindings[key], user, key))
  }

  ghost predicate IsGrantOf(b: RoleBinding, user: GlobalUser, key: Key) {
    |user.name| < |key.name|
    && b == BindingOf(Request(key.namespace, user.name, RoleOf(user.name, key.name), GLOBAL_LEVEL))
  }

  lemma GrantBetween(c: Cluster, user: GlobalUser, listing: seq<string>)
    requires Enumerates(listing, CfNamespaces(c.store))
    ensures Between(c.store, Grant(c, user, listing).cluster.store, user)
  {
    var requests := UserRequests(user, listing);
    var listed := List(c);
    if listed.status == Ok {
      PassBounds(listed.cluster, requests);
      var s' := Pass(listed.cluster, requests).cluster.store;
      forall key | key in s'.bindings && key !in c.store.bindings
        ensures key in UserKeys(c.store, user) && IsGrantOf(s'.bindings[key], user, key)
      {
        var r :| r in requests && KeyOf(r) == key && s'.bindings[key] == BindingOf(r);
        UserRequestsMember(user, listing, r);
        RoleOfKey(user.name, r.role);
      }
    }
  }

  /** Under any faults the clusters end between what they were and that plus all wanted bindings. */
  lemma {:induction false} ReconcileUserBetween(w: World, user: GlobalUser, visits: seq<Visit>)
    requires DistinctVisits(visits) && CorrectListings(w, visits)
    ensures var w' := ReconcileUser(w, user, visits).world;
            w'.Keys == w.Keys && forall name <- w :: Between(w[name].store, w'[name].store, user)
                                                     && (name !in Visited(visits) ==> w'[name] == w[name])
    decreases |visits|
  {
    if visits != [] {
      var head, rest := visits[0], visits[1..];
      assert head in visits;
      var r0 := Grant(w[head.cluster], user, head.listing);
      GrantBetween(w[head.cluster], user, head.listing);
      AfterFirstVisit(w, visits, r0.cluster);
      if r0.outcome.Done? {
        var w1 := w[head.cluster := r0.cluster];
        ReconcileUserBetween(w1, user, rest);
      }
    }
  }

  lemma ReconcileUserGrows(w: World, user: GlobalUser, visits: seq<Visit>)
    requires ValidVisits(w, visits)
    ensures WorldGrows(w, ReconcileUser(w, user, visits).world)
  {
    ValidVisitsVisitAll(w, visits);
    ReconcileUserBetween(w, user, visits);
  }

  // ---- Spelled out ----

  /** Under any faults, every binding that a reconcile adds lies in a namespace that carries the org
      label, is named user-role for one of the user's roles, and binds that user to that role. */
  lemma OnlyLabelledNamespacesGain(w: World, user: GlobalUser, visits: seq<Visit>)
    requires ValidVisits(w, visits)
    ensures var w' := ReconcileUser(w, user, visits).world;
            w'.Keys == w.Keys && forall cluster, key :: cluster in w && key in w'[cluster].store.bindings ==>
              || (key in w[cluster].store.bindings && w'[cluster].store.bindings[key] == w[cluster].store.bindings[key])
              || (&& key.namespace in w[cluster].store.namespaces
                  && "code.cloudfoundry.org/org" in w[cluster].store.namespaces[key.namespace]
                  && exists role :: role in user.roles && key.name == user.name + "-" + role
                       && w'[cluster].store.bindings[key]
                          == RoleBinding(map["code.cloudfoundry.org/role_level" := "global"],
                                         [Subject("rbac.authorization.k8s.io", "User", user.name)],
                                         RoleRef("rbac.authorization.k8s.io", "ClusterRole", role)))
  {
    ValidVisitsVisitAll(w, visits);
    ReconcileUserBetween(w, user, visits);
    var w' := ReconcileUser(w, user, visits).world;
    forall cluster, key | cluster in w && key in w'[cluster].store.bindings && key !in w[cluster].store.bindings
      ensures exists role :: role in user.roles && key.name == user.name + "-" + role
                && w'[cluster].store.bindings[key]
                   == RoleBinding(map["code.cloudfoundry.org/role_level" := "global"],
                                  [Subject("rbac.authorization.k8s.io", "User", user.name)],
                                  RoleRef("rbac.authorization.k8s.io", "ClusterRole", role))
    {
      UserKeyRole(w[cluster].store, user, key);
    }
  }

  lemma UserKeyRole(s: Store, user: GlobalUser, key: Key)
    requires key in UserKeys(s, user)
    ensures key.namespace in s.namespaces && "code.cloudfoundry.org/org" in s.namespaces[key.namespace]
    ensures |user.name| < |key.name| && RoleOf(user.name, key.name) in user.roles
    ensures key.name == user.name + "-" + RoleOf(user.name, key.name)
  {
    var namespace, role :| namespace in CfNamespaces(s) && role in user.roles && key == Key(namespace, Join(user.name, role));
    RoleOfKey(user.name, role);
  }

  lemma ClusterClearSpelledOut(s: Store, user: GlobalUser)
    ensures ClearFor(s, user) <==>
              (forall namespace <- s.namespaces ::
                 ("code.cloudfoundry.org/org" in s.namespaces[namespace] ==>
                    && (forall i, j :: 0 <= i < j < |user.roles| ==> user.roles[i] != user.roles[j])
                    && forall role <- user.roles :: Key(namespace, user.name + "-" + role) !in s.bindings))
  {
    assert forall namespace :: namespace in CfNamespaces(s)
             <==> namespace in s.namespaces && "code.cloudfoundry.org/org" in s.namespaces[namespace];
    assert forall role :: Join(user.name, role) == user.name + "-" + role;
    if CfNamespaces(s) != {} {
      var namespace :| namespace in CfNamespaces(s);
    }
  }

  /** A fault-free reconcile succeeds exactly when no labelled namespace of any cluster has a binding named
      user-role yet and, if there is a labelled namespace at all, the user's roles are distinct. */
  lemma SucceedsExactly(w: World, user: GlobalUser, visits: seq<Visit>)
    requires FaultFree(w) && ValidVisits(w, visits)
    ensures ReconcileUser(w, user, visits).outcome.Done? <==>
              forall cluster <- w ::
                (forall namespace <- w[cluster].store.namespaces ::
                   ("code.cloudfoundry.org/org" in w[cluster].store.namespaces[namespace] ==>
                      && (forall i, j :: 0 <= i < j < |user.roles| ==> user.roles[i] != user.roles[j])
                      && forall role <- user.roles :: Key(namespace, user.name + "-" + role) !in w[cluster].store.bindings))
  {
    OrderDoesNotMatter(w, user, visits, visits);
    forall cluster | cluster in w
      ensures ClearFor(w[cluster].store, user) <==>
                (forall namespace <- w[cluster].store.namespaces ::
                   ("code.cloudfoundry.org/org" in w[cluster].store.namespaces[namespace] ==>
                      && (forall i, j :: 0 <= i < j < |user.roles| ==> user.roles[i] != user.roles[j])
                      && forall role <- user.roles :: Key(namespace, user.name + "-" + role) !in w[cluster].store.bindings))
    {
      ClusterClearSpelledOut(w[cluster].store, user);
    }
  }

  /** The loop reports success only if every turn did, under any faults. */
  lemma {:induction false} SuccessVisitsAll(w: World, user: GlobalUser, visits: seq<Visit>)
    requires DistinctVisits(visits) && CorrectListings(w, visits) && ReconcileUser(w, user, visits).outcome.Done?
    ensures var r := ReconcileUser(w, user, visits);
            r.world.Keys == w.Keys
            && forall v <- visits :: Grant(w[v.cluster], user, v.listing) == SpaceResult(r.world[v.cluster], Done)
    decreases |visits|
  {
    if visits != [] {
      var head, rest := visits[0], visits[1..];
      assert head in visits;
      var r0 := Grant(w[head.cluster], user, head.listing);
      AfterFirstVisit(w, visits, r0.cluster);
      var w1 := w[head.cluster := r0.cluster];
      SuccessVisitsAll(w1, user, rest);
      ReconcileUserBetween(w1, user, rest);
      var r := ReconcileUser(w, user, visits);
      assert r == ReconcileUser(w1, user, rest) && r.world[head.cluster] == r0.cluster;
      forall v | v in visits
        ensures v.cluster in r.world && Grant(w[v.cluster], user, v.listing) == SpaceResult(r.world[v.cluster], Done)
      {
        assert v == head || (v in rest && w1[v.cluster] == w[v.cluster]);
      }
    }
  }

  /** Under any faults, a reconcile that reports success leaves the binding user-role in every labelled
      namespace of every cluster for every role. */
  lemma SuccessGrantsEverywhere(w: World, user: GlobalUser, visits: seq<Visit>,
                                cluster: string, namespace: string, role: string)
    requires ValidVisits(w, visits) && ReconcileUser(w, user, visits).outcome.Done?
    requires cluster in w && namespace in w[cluster].store.namespaces && role in user.roles
    requires "code.cloudfoundry.org/org" in w[cluster].store.namespaces[namespace]
    ensures var w' := ReconcileUser(w, user, visits).world;
            && cluster in w' && Key(namespace, user.name + "-" + role) in w'[cluster].store.bindings
            && w'[cluster].store.bindings[Key(namespace, user.name + "-" + role)]
               == RoleBinding(map["code.cloudfoundry.org/role_level" := "global"],
                              [Subject("rbac.authorization.k8s.io", "User", user.name)],
                              RoleRef("rbac.authorization.k8s.io", "ClusterRole", role))
  {
    ValidVisitsVisitAll(w, visits);
    SuccessVisitsAll(w, user, visits);
    assert cluster in Visited(visits) && namespace in CfNamespaces(w[cluster].store);
    var v :| v in visits && v.cluster == cluster;
    var r := Request(namespace, user.name, role, GLOBAL_LEVEL);
    UserRequestsMember(user, v.listing, r);
    PassSuccessIsComplete(List(w[cluster]).cluster, UserRequests(user, v.listing));
    assert KeyOf(r) == Key(namespace, user.name + "-" + role);
  }

  /** The result is that of a loop that ended with an error in turn `k`: the clusters before it are
      granted, those after it are as they were. */
  ghost predicate EndedAt(w: World, r: WorldResult, user: GlobalUser, visits: seq<Visit>, k: int) {
    && 0 <= k < |visits| && (forall v <- visits :: v.cluster in w && v.cluster in r.world)
    && (forall j :: 0 <= j < k ==> Grant(w[visits[j].cluster], user, visits[j].listing)
                                   == SpaceResult(r.world[visits[j].cluster], Done))
    && Grant(w[visits[k].cluster], user, visits[k].listing) == SpaceResult(r.world[visits[k].cluster], r.outcome)
    && (forall j :: k < j < |visits| ==> r.world[visits[j].cluster] == w[visits[j].cluster])
  }

  lemma EndedLater(w: World, r: WorldResult, user: GlobalUser, visits: seq<Visit>, k: int)
    requires visits != [] && DistinctVisits(visits) && CorrectListings(w, visits)
    requires visits[0].cluster in r.world
    requires Grant(w[visits[0].cluster], user, visits[0].listing) == SpaceResult(r.world[visits[0].cluster], Done)
    requires EndedAt(w[visits[0].cluster := r.world[visits[0].cluster]], r, user, visits[1..], k)
    ensures EndedAt(w, r, user, visits, k + 1)
  {
    AfterFirstVisit(w, visits, r.world[visits[0].cluster]);
    var rest := visits[1..];
    assert forall j :: 0 < j < |visits| ==> visits[j] == rest[j - 1] && rest[j - 1] in rest;
    assert forall v <- visits :: v == visits[0] || v in rest;
  }

  lemma EndedFirst(w: World, user: GlobalUser, visits: seq<Visit>)
    requires visits != [] && DistinctVisits(visits) && CorrectListings(w, visits)
    requires Grant(w[visits[0].cluster], user, visits[0].listing).outcome.Failed?
    ensures EndedAt(w, ReconcileUser(w, user, visits), user, visits, 0)
  {
    AfterFirstVisit(w, visits, Grant(w[visits[0].cluster], user, visits[0].listing).cluster);
    var rest := visits[1..];
    assert forall j :: 0 < j < |visits| ==> visits[j] == rest[j - 1] && rest[j - 1] in rest;
  }

  /** The loop stops at its first error, under any faults. */
  lemma {:induction false} FirstErrorEndsReconcile(w: World, user: GlobalUser, visits: seq<Visit>)
    requires DistinctVisits(visits) && CorrectListings(w, visits)
    ensures ReconcileUser(w, user, visits).outcome.Failed? ==>
              exists k :: EndedAt(w, ReconcileUser(w, user, visits), user, visits, k)
    decreases |visits|
  {
    if visits != [] {
      var head := visits[0];
      var r0 := Grant(w[head.cluster], user, head.listing);
      AfterFirstVisit(w, visits, r0.cluster);
      if r0.outcome.Failed? {
        EndedFirst(w, user, visits);
      } else if ReconcileUser(w, user, visits).outcome.Failed? {
        var w1 := w[head.cluster := r0.cluster];
        FirstErrorEndsReconcile(w1, user, visits[1..]);
        ReconcileUserBetween(w1, user, visits[1..]);
        var k :| EndedAt(w1, ReconcileUser(w1, user, visits[1..]), user, visits[1..], k);
        EndedLater(w, ReconcileUser(w, user, visits), user, visits, k);
      }
    }
  }

  // ---- Deleting a user ----

  /** The store without the user's global bindings. */
  function Purged(s: Store, user: string): Store {
    s.(bindings := s.bindings - Matches(s, user))
  }

  /** `s'` lacks some of the user's global bindings of `s`, and nothing else. */
  ghost predicate Towards(s: Store, s': Store, user: string) {
    && Grows(s', s) && s'.namespaces == s.namespaces
    && forall key <- s.bindings :: key in s'.bindings || key in Matches(s, user)
  }

  lemma TowardsStep(s: Store, s': Store, s'': Store, user: string)
    requires Towards(s, s', user) && Towards(s', s'', user)
    ensures Towards(s, s'', user)
  {
  }

  lemma TowardsEnds(s: Store, s': Store, user: string)
    requires Towards(s, s', user)
    ensures Matches(s', user) <= Matches(s, user) && Purged(s', user) == Purged(s, user)
    ensures Matches(s', user) == Matches(s, user) ==> s' == s
    ensures Matches(s', user) == {} ==> s' == Purged(s, user)
  {
    if Matches(s', user) == Matches(s, user) {
      forall key | key in s.bindings ensures key in s'.bindings {
        assert key in Matches(s, user) ==> key in Matches(s', user);
      }
      assert s'.bindings == s.bindings;
    }
    if Matches(s', user) == {} {
      assert forall key <- s'.bindings :: key in Matches(s, user) ==> key in Matches(s', user);
      assert s'.bindings == Purged(s, user).bindings;
    }
  }

  lemma {:induction false} DeleteKeysTowards(c: Cluster, keys: seq<Key>, user: string)
    requires forall key <- keys :: key in Matches(c.store, user)
    requires forall i, j :: 0 <= i < j < |keys| ==> keys[i] != keys[j]
    ensures var a := DeleteKeys(c, keys);
            && Towards(c.store, a.cluster.store, user)
            && (a.status == Ok ==> forall key <- keys :: key !in a.cluster.store.bindings)
            && (c.faults == [] ==> a.status == Ok && a.cluster.faults == [])
    decreases |keys|
  {
    if keys != [] {
      assert keys[0] in keys;
      var a := Call(c, RemoveBinding(c.store, keys[0]));
      if a.status == Ok {
        forall key | key in keys[1..] ensures key in Matches(a.cluster.store, user) {
          assert key in keys;
        }
        DeleteKeysTowards(a.cluster, keys[1..], user);
        TowardsStep(c.store, a.cluster.store, DeleteKeys(a.cluster, keys[1..]).cluster.store, user);
      }
    }
  }

  lemma PurgeTowards(c: Cluster, listing: seq<Key>, user: string)
    requires Enumerates(listing, Matches(c.store, user))
    ensures var r := Purge(c, listing);
            && Towards(c.store, r.cluster.store, user)
            && (r.outcome.Done? ==> r.cluster.store == Purged(c.store, user))
            && (c.faults == [] ==> r.outcome.Done?)
  {
    var listed := List(c);
    if listed.status == Ok {
      DeleteKeysTowards(listed.cluster, listing, user);
      var s' := DeleteKeys(listed.cluster, listing).cluster.store;
      TowardsEnds(c.store, s', user);
      assert forall key <- listing :: key !in s'.bindings ==> key !in Matches(s', user);
    }
  }

  ghost predicate WorldTowards(w: World, w': World, user: string) {
    w'.Keys == w.Keys && forall name <- w :: Towards(w[name].store, w'[name].store, user)
  }

  /** What the rest of the loop finds after the first sweep has changed its own cluster. */
  lemma AfterFirstSweep(w: World, sweeps: seq<Sweep>, user: string, c: Cluster)
    requires sweeps != [] && DistinctSweeps(sweeps) && CorrectSweeps(w, sweeps, user)
    ensures var head, rest := sweeps[0], sweeps[1..];
            var w1 := w[head.cluster := c];
            && head in sweeps && head.cluster in w
            && DistinctSweeps(rest) && CorrectSweeps(w1, rest, user)
            && Swept(sweeps) == {head.cluster} + Swept(rest) && head.cluster !in Swept(rest)
  {
    var head, rest := sweeps[0], sweeps[1..];
    assert head in sweeps;
    forall v | v in rest ensures v in sweeps && v.cluster != head.cluster {
      var i :| 0 <= i < |rest| && rest[i] == v;
      assert sweeps[i + 1] == v;
    }
  }

  lemma {:induction false} DeleteUserTowards(w: World, sweeps: seq<Sweep>, user: string)
    requires DistinctSweeps(sweeps) && CorrectSweeps(w, sweeps, user)
    ensures var r := DeleteUser(w, sweeps);
            && WorldTowards(w, r.world, user)
            && (forall name <- w :: name !in Swept(sweeps) ==> r.world[name] == w[name])
            && (r.outcome.Done? ==> forall name <- Swept(sweeps) :: r.world[name].store == Purged(w[name].store, user))
            && (FaultFree(w) ==> r.outcome.Done?)
    decreases |sweeps|
  {
    if sweeps != [] {
      var head, rest := sweeps[0], sweeps[1..];
      assert head in sweeps;
      var r0 := Purge(w[head.cluster], head.listing);
      AfterFirstSweep(w, sweeps, user, r0.cluster);
      PurgeTowards(w[head.cluster], head.listing, user);
      if r0.outcome.Done? {
        PurgeKeepsFaultFree(w[head.cluster], head.listing, user);
        DeleteUserTowards(w[head.cluster := r0.cluster], rest, user);
      }
    }
  }

  lemma PurgeKeepsFaultFree(c: Cluster, listing: seq<Key>, user: string)
    requires Enumerates(listing, Matches(c.store, user))
    ensures c.faults == [] ==> Purge(c, listing).cluster.faults == []
  {
    DeleteKeysTowards(c, listing, user);
  }

  lemma ValidSweepsSweepAll(w: World, sweeps: seq<Sweep>, user: string)
    requires ValidSweeps(w, sweeps, user)
    ensures DistinctSweeps(sweeps) && CorrectSweeps(w, sweeps, user) && Swept(sweeps) == w.Keys
  {
    var names := SweepNames(sweeps);
    forall i, j | 0 <= i < j < |sweeps| ensures sweeps[i].cluster != sweeps[j].cluster {
      assert names[i] != names[j];
    }
    forall name | name in w ensures name in Swept(sweeps) {
      assert name in names;
      var i :| 0 <= i < |names| && names[i] == name;
      assert sweeps[i] in sweeps;
    }
  }

  /** Each attempt lists what the previous ones left behind. */
  ghost predicate ValidAttempts(w: World, attempts: seq<seq<Sweep>>, user: string)
    decreases |attempts|
  {
    attempts == []
    || (ValidSweeps(w, attempts[0], user) && ValidAttempts(DeleteUser(w, attempts[0]).world, attempts[1..], user))
  }

  /** Deletion attempts one after the other; the outcome is that of the last. */
  function DeleteUserRepeatedly(w: World, attempts: seq<seq<Sweep>>, user: string): WorldResult
    requires ValidAttempts(w, attempts, user)
    decreases |attempts|
  {
    if attempts == [] then WorldResult(w, Failed(ListFailed))
    else
      var r := DeleteUser(w, attempts[0]);
      if |attempts| == 1 then r else DeleteUserRepeatedly(r.world, attempts[1..], user)
  }

  /** Each attempt starts from what the one before left, and the last one's outcome counts. */
  lemma {:induction false} LastAttemptDecides(w: World, attempts: seq<seq<Sweep>>, last: seq<Sweep>, user: string)
    requires attempts != [] && ValidAttempts(w, attempts, user)
    requires ValidSweeps(DeleteUserRepeatedly(w, attempts, user).world, last, user)
    ensures ValidAttempts(w, attempts + [last], user)
    ensures DeleteUserRepeatedly(w, attempts + [last], user)
            == DeleteUser(DeleteUserRepeatedly(w, attempts, user).world, last)
    decreases |attempts|
  {
    var w1 := DeleteUser(w, attempts[0]).world;
    assert (attempts + [last])[0] == attempts[0] && (attempts + [last])[1..] == attempts[1..] + [last];
    if |attempts| == 1 {
      assert attempts[1..] + [last] == [last] && [last][1..] == [];
    } else {
      LastAttemptDecides(w1, attempts[1..], last, user);
    }
  }

  /** All bindings still to be deleted. */
  function AllMatches(w: World, user: string): set<(string, Key)> {
    set name, key | name in w && key in Matches(w[name].store, user) :: (name, key)
  }

  lemma TowardsMatches(w: World, w': World, user: string)
    requires WorldTowards(w, w', user)
    ensures AllMatches(w', user) <= AllMatches(w, user)
    ensures AllMatches(w', user) == AllMatches(w, user) ==> SameStores(w, w')
  {
    forall name, key | (name, key) in AllMatches(w', user) ensures (name, key) in AllMatches(w, user) {
      TowardsEnds(w[name].store, w'[name].store, user);
    }
    if AllMatches(w', user) == AllMatches(w, user) {
      forall name | name in w ensures w'[name].store == w[name].store {
        forall key | key in Matches(w[name].store, user) ensures key in Matches(w'[name].store, user) {
          assert (name, key) in AllMatches(w, user);
        }
        TowardsEnds(w[name].store, w'[name].store, user);
      }
    }
  }

  /** The termination measure: an attempt never adds a match, and one that leaves as many as it found
      has changed nothing. */
  lemma AttemptShrinksMatches(w: World, sweeps: seq<Sweep>, user: string)
    requires ValidSweeps(w, sweeps, user)
    ensures var w' := DeleteUser(w, sweeps).world;
            && |AllMatches(w', user)| <= |AllMatches(w, user)|
            && (|AllMatches(w', user)| == |AllMatches(w, user)| ==> SameStores(w, w'))
  {
    ValidSweepsSweepAll(w, sweeps, user);
    DeleteUserTowards(w, sweeps, user);
    var w' := DeleteUser(w, sweeps).world;
    TowardsMatches(w, w', user);
    SubsetSize(AllMatches(w', user), AllMatches(w, user));
  }

  lemma SubsetSize<T>(small: set<T>, large: set<T>)
    requires small <= large
    ensures |small| <= |large| && (|small| == |large| ==> small == large)
  {
    assert |large| == |small| + |large - small| by {
      assert large == small + (large - small);
    }
    if |small| == |large| {
      assert large - small == {};
    }
  }

  lemma {:induction false} AttemptsTowards(w: World, attempts: seq<seq<Sweep>>, user: string)
    requires ValidAttempts(w, attempts, user)
    ensures var r := DeleteUserRepeatedly(w, attempts, user);
            && WorldTowards(w, r.world, user)
            && (r.outcome.Done? ==> forall name <- w :: r.world[name].store == Purged(w[name].store, user))
    decreases |attempts|
  {
    if attempts != [] {
      ValidSweepsSweepAll(w, attempts[0], user);
      DeleteUserTowards(w, attempts[0], user);
      if |attempts| > 1 {
        var w1 := DeleteUser(w, attempts[0]).world;
        AttemptsTowards(w1, attempts[1..], user);
        var w' := DeleteUserRepeatedly(w1, attempts[1..], user).world;
        forall name | name in w
          ensures Towards(w[name].store, w'[name].store, user)
          ensures Purged(w1[name].store, user) == Purged(w[name].store, user)
        {
          TowardsStep(w[name].store, w1[name].store, w'[name].store, user);
          TowardsEnds(w[name].store, w1[name].store, user);
        }
      }
    }
  }

  /** The same clusters with no faults to come. */
  function Calm(w: World): World {
    map name | name in w :: Cluster(w[name].store, [])
  }

  lemma CalmDeletionCompletes(w: World, once: seq<Sweep>, user: string)
    requires ValidSweeps(Calm(w), once, user)
    ensures var r := DeleteUser(Calm(w), once);
            && r.outcome.Done? && r.world.Keys == w.Keys
            && forall name <- w :: r.world[name].store == Purged(w[name].store, user)
  {
    ValidSweepsSweepAll(Calm(w), once, user);
    DeleteUserTowards(Calm(w), once, user);
  }

  /** Deletion resumes: any attempts, each stopped anywhere by any fault, and then one that completes
      leave every cluster as a single undisturbed attempt would, whatever the orders; no matching
      binding is left and nothing else is touched. */
  lemma DeletionResumes(w: World, attempts: seq<seq<Sweep>>, once: seq<Sweep>, user: string)
    requires ValidAttempts(w, attempts, user) && ValidSweeps(Calm(w), once, user)
    requires DeleteUserRepeatedly(w, attempts, user).outcome.Done?
    ensures var w' := DeleteUserRepeatedly(w, attempts, user).world;
            var single := DeleteUser(Calm(w), once);
            && single.outcome.Done? && single.world.Keys == w'.Keys == w.Keys
            && (forall name <- w :: single.world[name].store == w'[name].store)
            && (forall name <- w :: name in w' && w'[name].store == Purged(w[name].store, user))
            && AllMatches(w', user) == {}
  {
    AttemptsTowards(w, attempts, user);
    CalmDeletionCompletes(w, once, user);
    var w' := DeleteUserRepeatedly(w, attempts, user).world;
    forall name | name in w ensures Matches(w'[name].store, user) == {} {
      PurgedHasNoMatches(w[name].store, user);
    }
  }

  /** What a completed deletion leaves, spelled out: namespaces are untouched, and a binding is there,
      unaltered, if and only if it was there before and does not have level global or does not have the
      user as its first User subject. */
  lemma DeletionSpelledOut(w: World, attempts: seq<seq<Sweep>>, user: string)
    requires ValidAttempts(w, attempts, user) && DeleteUserRepeatedly(w, attempts, user).outcome.Done?
    ensures var w' := DeleteUserRepeatedly(w, attempts, user).world;
            w'.Keys == w.Keys && forall cluster <- w ::
              && w'[cluster].store.namespaces == w[cluster].store.namespaces
              && (forall key <- w'[cluster].store.bindings ::
                    key in w[cluster].store.bindings
                    && w'[cluster].store.bindings[key] == w[cluster].store.bindings[key])
              && forall key <- w[cluster].store.bindings ::
                   var b := w[cluster].store.bindings[key];
                   key in w'[cluster].store.bindings <==>
                     || "code.cloudfoundry.org/role_level" !in b.labels
                     || b.labels["code.cloudfoundry.org/role_level"] != "global"
                     || !exists i :: 0 <= i < |b.subjects| && b.subjects[i].kind == "User" && b.subjects[i].name == user
                                     && forall j :: 0 <= j < i ==> b.subjects[j].kind != "User"
  {
    AttemptsTowards(w, attempts, user);
    forall cluster, key | cluster in w && key in w[cluster].store.bindings
      ensures IsGlobalFor(w[cluster].store.bindings[key], user) <==> GlobalBindingOf(w[cluster].store.bindings[key], user)
    {
      GlobalForExactly(w[cluster].store.bindings[key], user);
    }
  }

  /** The same for one attempt: stopped at its first error, it has deleted only such bindings; completed,
      all of them. */
  lemma AttemptSpelledOut(w: World, sweeps: seq<Sweep>, user: string)
    requires ValidSweeps(w, sweeps, user)
    ensures var r := DeleteUser(w, sweeps);
            r.world.Keys == w.Keys && forall cluster <- w ::
              && r.world[cluster].store.namespaces == w[cluster].store.namespaces
              && (forall key <- r.world[cluster].store.bindings ::
                    key in w[cluster].store.bindings
                    && r.world[cluster].store.bindings[key] == w[cluster].store.bindings[key])
              && forall key <- w[cluster].store.bindings ::
                   var b := w[cluster].store.bindings[key];
                   var doomed := && "code.cloudfoundry.org/role_level" in b.labels
                                 && b.labels["code.cloudfoundry.org/role_level"] == "global"
                                 && exists i :: 0 <= i < |b.subjects| && b.subjects[i].kind == "User"
                                                && b.subjects[i].name == user
                                                && forall j :: 0 <= j < i ==> b.subjects[j].kind != "User";
                   && (!doomed ==> key in r.world[cluster].store.bindings)
                   && (doomed && r.outcome.Done? ==> key !in r.world[cluster].store.bindings)
  {
    ValidSweepsSweepAll(w, sweeps, user);
    DeleteUserTowards(w, sweeps, user);
    forall cluster, key | cluster in w && key in w[cluster].store.bindings
      ensures IsGlobalFor(w[cluster].store.bindings[key], user) <==> GlobalBindingOf(w[cluster].store.bindings[key], user)
    {
      GlobalForExactly(w[cluster].store.bindings[key], user);
    }
  }

  /** The Delete calls got through the first `k` keys; then it was the end, or the first error. */
  ghost predicate DeletesStoppedAt(c: Cluster, keys: seq<Key>, k: int) {
    && 0 <= k <= |keys| && DeleteKeys(c, keys[..k]).status == Ok
    && if k == |keys| then DeleteKeys(c, keys).status == Ok
       else var before := DeleteKeys(c, keys[..k]).cluster;
            && DeleteKeys(c, keys).status != Ok
            && DeleteKeys(c, keys) == Call(before, RemoveBinding(before.store, keys[k]))
  }

  /** Under any faults the Delete calls stop at the first error. */
  lemma {:induction false} DeletesStopAtFirstError(c: Cluster, keys: seq<Key>)
    ensures exists k :: DeletesStoppedAt(c, keys, k)
    decreases |keys|
  {
    if keys == [] {
      assert DeletesStoppedAt(c, keys, 0);
    } else {
      var a, rest := Call(c, RemoveBinding(c.store, keys[0])), keys[1..];
      if a.status != Ok {
        assert DeletesStoppedAt(c, keys, 0);
      } else {
        DeletesStopAtFirstError(a.cluster, rest);
        var k :| DeletesStoppedAt(a.cluster, rest, k);
        assert keys[..k + 1][0] == keys[0] && keys[..k + 1][1..] == rest[..k];
        assert DeletesStoppedAt(c, keys, k + 1);
      }
    }
  }

  /** The same for the deletion loop. */
  ghost predicate DeletionEndedAt(w: World, r: WorldResult, sweeps: seq<Sweep>, k: int) {
    && 0 <= k < |sweeps| && (forall v <- sweeps :: v.cluster in w && v.cluster in r.world)
    && (forall j :: 0 <= j < k ==> Purge(w[sweeps[j].cluster], sweeps[j].listing)
                                   == SpaceResult(r.world[sweeps[j].cluster], Done))
    && Purge(w[sweeps[k].cluster], sweeps[k].listing) == SpaceResult(r.world[sweeps[k].cluster], r.outcome)
    && (forall j :: k < j < |sweeps| ==> r.world[sweeps[j].cluster] == w[sweeps[j].cluster])
  }

  lemma DeletionEndedLater(w: World, r: WorldResult, sweeps: seq<Sweep>, user: string, k: int)
    requires sweeps != [] && DistinctSweeps(sweeps) && CorrectSweeps(w, sweeps, user)
    requires sweeps[0].cluster in r.world
    requires Purge(w[sweeps[0].cluster], sweeps[0].listing) == SpaceResult(r.world[sweeps[0].cluster], Done)
    requires DeletionEndedAt(w[sweeps[0].cluster := r.world[sweeps[0].cluster]], r, sweeps[1..], k)
    ensures DeletionEndedAt(w, r, sweeps, k + 1)
  {
    AfterFirstSweep(w, sweeps, user, r.world[sweeps[0].cluster]);
    var rest := sweeps[1..];
    assert forall j :: 0 < j < |sweeps| ==> sweeps[j] == rest[j - 1] && rest[j - 1] in rest;
    assert forall v <- sweeps :: v == sweeps[0] || v in rest;
  }

  lemma DeletionEndedFirst(w: World, sweeps: seq<Sweep>, user: string)
    requires sweeps != [] && DistinctSweeps(sweeps) && CorrectSweeps(w, sweeps, user)
    requires Purge(w[sweeps[0].cluster], sweeps[0].listing).outcome.Failed?
    ensures DeletionEndedAt(w, DeleteUser(w, sweeps), sweeps, 0)
  {
    AfterFirstSweep(w, sweeps, user, Purge(w[sweeps[0].cluster], sweeps[0].listing).cluster);
    var rest := sweeps[1..];
    assert forall j :: 0 < j < |sweeps| ==> sweeps[j] == rest[j - 1] && rest[j - 1] in rest;
  }

  /** The deletion loop stops at its first error, under any faults. */
  lemma {:induction false} FirstErrorEndsDeletion(w: World, sweeps: seq<Sweep>, user: string)
    requires DistinctSweeps(sweeps) && CorrectSweeps(w, sweeps, user)
    ensures DeleteUser(w, sweeps).outcome.Failed? ==>
              exists k :: DeletionEndedAt(w, DeleteUser(w, sweeps), sweeps, k)
    decreases |sweeps|
  {
    if sweeps != [] {
      var head := sweeps[0];
      var r0 := Purge(w[head.cluster], head.listing);
      AfterFirstSweep(w, sweeps, user, r0.cluster);
      if r0.outcome.Failed? {
        DeletionEndedFirst(w, sweeps, user);
      } else if DeleteUser(w, sweeps).outcome.Failed? {
        var w1 := w[head.cluster := r0.cluster];
        FirstErrorEndsDeletion(w1, sweeps[1..], user);
        DeleteUserTowards(w1, sweeps[1..], user);
        var k :| DeletionEndedAt(w1, DeleteUser(w1, sweeps[1..]), sweeps[1..], k);
        DeletionEndedLater(w, DeleteUser(w, sweeps), sweeps, user, k);
      }
    }
  }

  lemma PurgedHasNoMatches(s: Store, user: string)
    ensures Matches(Purged(s, user), user) == {}
  {
  }

  // ---- Deletion undoes creation ----

  lemma {:induction false} PassPurged(c: Cluster, requests: seq<Request>, user: string)
    requires forall r <- requests :: r.user == user && r.level == GLOBAL_LEVEL
    ensures Purged(Pass(c, requests).cluster.store, user) == Purged(c.store, user)
    decreases |requests|
  {
    if requests != [] {
      assert requests[0] in requests;
      CreatePurged(c, requests[0]);
      PassPurged(Create(c, requests[0]).cluster, requests[1..], user);
    }
  }

  lemma CreatePurged(c: Cluster, r: Request)
    requires r.level == GLOBAL_LEVEL
    ensures Purged(Create(c, r).cluster.store, r.user) == Purged(c.store, r.user)
  {
    var s' := Create(c, r).cluster.store;
    if s' != c.store {
      assert IsGlobalFor(BindingOf(r), r.user);
      assert Matches(s', r.user) == Matches(c.store, r.user) + {KeyOf(r)};
      assert Purged(s', r.user).bindings == Purged(c.store, r.user).bindings;
    }
  }

  lemma {:induction false} ReconcileUserPurged(w: World, user: GlobalUser, visits: seq<Visit>)
    requires VisitsIn(w, visits)
    ensures var w' := ReconcileUser(w, user, visits).world;
            w'.Keys == w.Keys
            && forall name <- w :: Purged(w'[name].store, user.name) == Purged(w[name].store, user.name)
    decreases |visits|
  {
    if visits != [] {
      var head := visits[0];
      assert head in visits;
      var r0 := Grant(w[head.cluster], user, head.listing);
      var requests := UserRequests(user, head.listing);
      forall r | r in requests ensures r.user == user.name && r.level == GLOBAL_LEVEL {
        UserRequestsMember(user, head.listing, r);
      }
      PassPurged(List(w[head.cluster]).cluster, requests, user.name);
      if r0.outcome.Done? {
        ReconcileUserPurged(w[head.cluster := r0.cluster], user, visits[1..]);
      }
    }
  }

  /** Round trip: if the user had no binding of level global, then a reconcile stopped anywhere by any
      fault, followed by deletion attempts of which the last completes, restores every cluster exactly.
      Bindings of any other level are kept, those of the same user included. */
  lemma GlobalUserRoundTrip(w: World, user: GlobalUser, visits: seq<Visit>, attempts: seq<seq<Sweep>>)
    requires ValidVisits(w, visits)
    requires forall cluster, key :: cluster in w && key in w[cluster].store.bindings ==>
               var b := w[cluster].store.bindings[key];
               || "code.cloudfoundry.org/role_level" !in b.labels
               || b.labels["code.cloudfoundry.org/role_level"] != "global"
               || !exists i :: 0 <= i < |b.subjects| && b.subjects[i].kind == "User" && b.subjects[i].name == user.name
                               && forall j :: 0 <= j < i ==> b.subjects[j].kind != "User"
    requires ValidAttempts(ReconcileUser(w, user, visits).world, attempts, user.name)
    ensures var r := DeleteUserRepeatedly(ReconcileUser(w, user, visits).world, attempts, user.name);
            r.outcome.Done? ==> r.world.Keys == w.Keys && forall name <- w :: r.world[name].store == w[name].store
  {
    ReconcileUserPurged(w, user, visits);
    AttemptsTowards(ReconcileUser(w, user, visits).world, attempts, user.name);
    forall name | name in w ensures Purged(w[name].store, user.name) == w[name].store {
      forall key | key in w[name].store.bindings ensures !IsGlobalFor(w[name].store.bindings[key], user.name) {
        GlobalForExactly(w[name].store.bindings[key], user.name);
      }
      assert Matches(w[name].store, user.name) == {};
    }
  }
}

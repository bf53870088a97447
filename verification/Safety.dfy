/** What holds in every reachable state of the two interleaved workers. */
module Safety {
  import opened Names
  import opened Api
  import opened Grants
  import opened OrgSpec
  import opened GlobalUserSpec
  import opened Workers

  // ---- Where a binding may come from ----

  ghost predicate Lists(users: seq<User>, user: string, role: string) {
    exists u :: u in users && u.name == user && role in u.roles
  }

  /** Some past GlobalUser of that name held the role. */
  ghost predicate FromGlobalUser(users: set<GlobalUser>, user: string, role: string) {
    exists g :: g in users && g.name == user && role in g.roles
  }

  /** Some past Org has a space on this cluster with this namespace, and lists the user with the role
      for that space or for the whole org. */
  ghost predicate FromOrg(orgs: set<Org>, cluster: string, namespace: string, user: string, role: string) {
    exists org, space ::
      org in orgs && space in org.spaces && space.clusterName == cluster && NamespaceOf(org, space) == namespace
      && (Lists(org.users, user, role) || Lists(space.users, user, role))
  }

  ghost predicate Justified(orgs: set<Org>, users: set<GlobalUser>, cluster: string, r: Request) {
    || (r.level == GLOBAL_LEVEL && FromGlobalUser(users, r.user, r.role))
    || (r.level == OTHER_LEVEL && FromOrg(orgs, cluster, r.namespace, r.user, r.role))
  }

  /** The binding has the shape the controllers give it: one User subject, a ClusterRole, a level, and
      the name `user-role`; and some past spec asked for it. */
  ghost predicate Accounted(orgs: set<Org>, users: set<GlobalUser>, cluster: string, key: Key, b: RoleBinding) {
    exists r: Request :: r.namespace == key.namespace && WellFormed(key, b, r) && Justified(orgs, users, cluster, r)
  }

  ghost predicate WellFormed(key: Key, b: RoleBinding, r: Request) {
    && key.name == r.user + "-" + r.role
    && b.subjects == [Subject("rbac.authorization.k8s.io", "User", r.user)]
    && b.roleRef == RoleRef("rbac.authorization.k8s.io", "ClusterRole", r.role)
    && b.labels == map["code.cloudfoundry.org/role_level" := r.level]
    && (r.level == "global" || r.level == "other")
  }

  /** A namespace carries the label of one past org, and its name starts with that org's name. */
  ghost predicate Owned(orgs: set<Org>, name: string, labels: Labels) {
    exists org :: org in orgs && labels == OrgLabels(org) && org.name + "-" <= name
  }

  ghost predicate StoreSafe(orgs: set<Org>, users: set<GlobalUser>, cluster: string, store: Store) {
    && WellPlaced(store)
    && (forall name <- store.namespaces :: Owned(orgs, name, store.namespaces[name]))
    && (forall key <- store.bindings :: Accounted(orgs, users, cluster, key, store.bindings[key]))
  }

  ghost predicate StoresSafe(s: State) {
    forall cluster <- s.stores :: StoreSafe(s.orgs, s.users, cluster, s.stores[cluster])
  }

  ghost predicate TodoSafe(orgs: set<Org>, users: set<GlobalUser>, cluster: string, todo: seq<Request>) {
    forall r <- todo :: Justified(orgs, users, cluster, r)
  }

  ghost predicate GlobalsSafe(users: set<GlobalUser>, globals: seq<User>) {
    forall u, role :: u in globals && role in u.roles ==> FromGlobalUser(users, u.name, role)
  }

  ghost predicate SpacesOf(org: Org, spaces: seq<Space>) {
    forall space <- spaces :: space in org.spaces
  }

  ghost predicate OrgWorkerSafe(orgs: set<Org>, users: set<GlobalUser>, w: OrgWorker) {
    match w
    case OrgIdle => true
    case OrgListing(org) => org in orgs
    case OrgLooping(org, globals, spaces) => org in orgs && GlobalsSafe(users, globals) && SpacesOf(org, spaces)
    case OrgGranting(org, globals, spaces, cluster, todo) =>
      org in orgs && GlobalsSafe(users, globals) && SpacesOf(org, spaces) && TodoSafe(orgs, users, cluster, todo)
    case OrgErasing(_, _) => true
  }

  ghost predicate UserWorkerSafe(orgs: set<Org>, users: set<GlobalUser>, w: UserWorker) {
    match w
    case UserLooping(user, _) => user in users
    case UserGranting(user, _, cluster, todo) => user in users && TodoSafe(orgs, users, cluster, todo)
    case _ => true
  }

  ghost predicate Safe(s: State) {
    StoresSafe(s) && OrgWorkerSafe(s.orgs, s.users, s.org) && UserWorkerSafe(s.orgs, s.users, s.user)
  }

  // ---- Every step keeps it ----

  lemma JustifiedLater(orgs: set<Org>, users: set<GlobalUser>, orgs': set<Org>, users': set<GlobalUser>,
                       cluster: string, r: Request)
    requires orgs <= orgs' && users <= users' && Justified(orgs, users, cluster, r)
    ensures Justified(orgs', users', cluster, r)
  {
    if r.level == OTHER_LEVEL && FromOrg(orgs, cluster, r.namespace, r.user, r.role) {
      var org, space :| org in orgs && space in org.spaces && space.clusterName == cluster
                        && NamespaceOf(org, space) == r.namespace
                        && (Lists(org.users, r.user, r.role) || Lists(space.users, r.user, r.role));
      assert org in orgs';
    }
  }

  lemma StoreSafeLater(orgs: set<Org>, users: set<GlobalUser>, orgs': set<Org>, users': set<GlobalUser>,
                       cluster: string, store: Store)
    requires orgs <= orgs' && users <= users' && StoreSafe(orgs, users, cluster, store)
    ensures StoreSafe(orgs', users', cluster, store)
  {
    forall key | key in store.bindings ensures Accounted(orgs', users', cluster, key, store.bindings[key]) {
      var r: Request :| r.namespace == key.namespace && WellFormed(key, store.bindings[key], r) && Justified(orgs, users, cluster, r);
      JustifiedLater(orgs, users, orgs', users', cluster, r);
    }
  }

  /** New versions of specs do no harm. */
  lemma SafeLater(s: State, s': State)
    requires Safe(s) && s.orgs <= s'.orgs && s.users <= s'.users
    requires s'.stores == s.stores && s'.org == s.org && s'.user == s.user
    ensures Safe(s')
  {
    forall cluster | cluster in s.stores ensures StoreSafe(s'.orgs, s'.users, cluster, s.stores[cluster]) {
      StoreSafeLater(s.orgs, s.users, s'.orgs, s'.users, cluster, s.stores[cluster]);
    }
    if s.org.OrgGranting? {
      TodoSafeLater(s, s', s.org.cluster, s.org.todo);
    }
    if s.user.UserGranting? {
      TodoSafeLater(s, s', s.user.cluster, s.user.todo);
    }
  }

  lemma TodoSafeLater(s: State, s': State, cluster: string, todo: seq<Request>)
    requires s.orgs <= s'.orgs && s.users <= s'.users && TodoSafe(s.orgs, s.users, cluster, todo)
    ensures TodoSafe(s'.orgs, s'.users, cluster, todo)
  {
    forall r | r in todo ensures Justified(s'.orgs, s'.users, cluster, r) {
      JustifiedLater(s.orgs, s.users, s'.orgs, s'.users, cluster, r);
    }
  }

  lemma CreateSafe(s: State, cluster: string, r: Request, fault: Fault)
    requires StoresSafe(s) && cluster in s.stores && Justified(s.orgs, s.users, cluster, r)
    ensures StoreSafe(s.orgs, s.users, cluster, Stored(s, cluster, r, fault).store)
  {
    assert WellFormed(KeyOf(r), BindingOf(r), r);
    assert Accounted(s.orgs, s.users, cluster, KeyOf(r), BindingOf(r));
  }

  lemma EnsureSafe(s: State, org: Org, space: Space, fault: Fault)
    requires StoresSafe(s) && space.clusterName in s.stores && org in s.orgs
    ensures var store := s.stores[space.clusterName];
            StoreSafe(s.orgs, s.users, space.clusterName,
                      Deliver(store, AddNamespace(store, NamespaceOf(org, space), OrgLabels(org)), fault).store)
  {
    JoinStartsWith(org.name, space.name);
    assert Owned(s.orgs, NamespaceOf(org, space), OrgLabels(org));
  }

  /** Everything a space wants is justified by the org and the listed global users. */
  lemma WantedJustified(orgs: set<Org>, users: set<GlobalUser>, org: Org, space: Space, globals: seq<User>)
    requires org in orgs && space in org.spaces && GlobalsSafe(users, globals)
    ensures TodoSafe(orgs, users, space.clusterName, Wanted(org, space, globals))
  {
    var namespace := NamespaceOf(org, space);
    forall r | r in Wanted(org, space, globals) ensures Justified(orgs, users, space.clusterName, r) {
      if r in Flatten(globals, GLOBAL_LEVEL, namespace) {
        FlattenMember(globals, GLOBAL_LEVEL, namespace, r);
      } else if r in Flatten(org.users, OTHER_LEVEL, namespace) {
        FlattenMember(org.users, OTHER_LEVEL, namespace, r);
        assert Lists(org.users, r.user, r.role);
      } else {
        FlattenMember(space.users, OTHER_LEVEL, namespace, r);
        assert Lists(space.users, r.user, r.role);
      }
    }
  }

  lemma {:induction false} UserRequestsJustified(orgs: set<Org>, users: set<GlobalUser>, user: GlobalUser,
                                                 names: seq<string>, cluster: string)
    requires user in users
    ensures TodoSafe(orgs, users, cluster, UserRequests(user, names))
  {
    if names != [] {
      UserRequestsJustified(orgs, users, user, names[1..], cluster);
      forall r | r in RoleRequests(user.name, user.roles, GLOBAL_LEVEL, names[0])
        ensures FromGlobalUser(users, r.user, r.role)
      {
        assert user in users && r.role in user.roles;
      }
    }
  }

  lemma OrgCallsSafe(s: State, fault: Fault)
    requires Safe(s)
    ensures Safe(OrgCalls(s, fault))
  {
    match s.org {
      case OrgLooping(org, globals, spaces) =>
        if spaces != [] && spaces[0].clusterName in s.stores {
          assert spaces[0] in spaces;
          EnsureSafe(s, org, spaces[0], fault);
          WantedJustified(s.orgs, s.users, org, spaces[0], globals);
        }
      case OrgGranting(org, globals, spaces, cluster, todo) =>
        if todo != [] && cluster in s.stores {
          assert todo[0] in todo;
          CreateSafe(s, cluster, todo[0], fault);
        }
      case _ =>
    }
  }

  lemma UserCallsSafe(s: State, fault: Fault)
    requires Safe(s)
    ensures Safe(UserCalls(s, fault))
  {
    match s.user {
      case UserGranting(user, clusters, cluster, todo) =>
        if todo != [] && cluster in s.stores {
          assert todo[0] in todo;
          CreateSafe(s, cluster, todo[0], fault);
        }
      case UserDeleting(name, clusters, cluster, keys) =>
      case _ =>
    }
  }

  lemma ListSafe(users: set<GlobalUser>, items: seq<GlobalUser>)
    requires forall g <- items :: g in users
    ensures GlobalsSafe(users, AsUsers(items))
  {
    var globals := AsUsers(items);
    forall u, role | u in globals && role in u.roles ensures FromGlobalUser(users, u.name, role) {
      var i :| 0 <= i < |globals| && globals[i] == u;
      assert items[i] in items;
    }
  }

  lemma StepKeepsSafe(s: State, a: Action)
    requires Safe(s)
    ensures Safe(Step(s, a))
  {
    match a {
      case PutOrg(_) => SafeLater(s, Step(s, a));
      case PutUser(_) => SafeLater(s, Step(s, a));
      case OrgList(items) =>
        if forall g <- items :: g in s.users { ListSafe(s.users, items); }
      case OrgCall(fault) => OrgCallsSafe(s, fault);
      case UserCall(fault) => UserCallsSafe(s, fault);
      case UserList(cluster, names) =>
        if s.user.UserLooping? {
          UserRequestsJustified(s.orgs, s.users, s.user.user, names, cluster);
        }
      case _ =>
    }
  }

  lemma {:induction false} RunKeepsSafe(s: State, actions: seq<Action>)
    requires Safe(s)
    ensures Safe(Run(s, actions))
    decreases |actions|
  {
    if actions != [] {
      StepKeepsSafe(s, actions[0]);
      RunKeepsSafe(Step(s, actions[0]), actions[1..]);
    }
  }

  /** In every run from empty clusters, whatever the interleaving and the faults, every binding in
      every cluster has the right shape and is asked for by some past spec. */
  lemma EveryBindingAccounted(clusters: set<string>, actions: seq<Action>)
    ensures var s := Run(Start(clusters), actions);
            forall cluster, key :: cluster in s.stores && key in s.stores[cluster].bindings ==>
              Accounted(s.orgs, s.users, cluster, key, s.stores[cluster].bindings[key])
  {
    RunKeepsSafe(Start(clusters), actions);
  }

  // ---- The subject index ----

  /** What the index finds: bindings whose first User subject has the name. */
  function IndexLookup(store: Store, user: string): set<Key> {
    set key | key in store.bindings && user in FirstUser(store.bindings[key].subjects)
  }

  /** What a scan finds: bindings any of whose User subjects has the name. */
  function ScanLookup(store: Store, user: string): set<Key> {
    set key, subject | key in store.bindings && subject in store.bindings[key].subjects
                       && subject.kind == USER_KIND && subject.name == user :: key
  }

  /** In every reachable state the index of first User subjects agrees with a full scan. */
  lemma IndexAgreesWithScan(clusters: set<string>, actions: seq<Action>, cluster: string, user: string)
    requires cluster in Run(Start(clusters), actions).stores
    ensures var store := Run(Start(clusters), actions).stores[cluster];
            IndexLookup(store, user) == ScanLookup(store, user)
  {
    RunKeepsSafe(Start(clusters), actions);
    var s := Run(Start(clusters), actions);
    var store := s.stores[cluster];
    forall key | key in store.bindings
      ensures key in IndexLookup(store, user) <==> key in ScanLookup(store, user)
    {
      assert Accounted(s.orgs, s.users, cluster, key, store.bindings[key]);
      var r :| WellFormed(key, store.bindings[key], r);
      assert store.bindings[key].subjects[0] in store.bindings[key].subjects;
    }
  }

  // ---- Orgs are separate ----

  /** The two names cannot produce the same namespace name: dash-free names are the simplest such pair. */
  ghost predicate SeparateNames(name: string, other: string) {
    name != other && !Continues(name, other) && !Continues(other, name)
  }

  lemma DashFreeNamesSeparate(name: string, other: string)
    requires DashFree(name) && DashFree(other) && name != other
    ensures SeparateNames(name, other)
  {
    DashFreeNeverContinues(name, other);
    DashFreeNeverContinues(other, name);
  }

  /** In every reachable state, whatever other orgs there are: erasing one org leaves every namespace
      that maps to a separately named org, and the bindings in it, as they are. */
  lemma ErasingOneOrgKeepsTheOthers(clusters: set<string>, actions: seq<Action>, cluster: string,
                                    name: string, namespace: string, other: string)
    requires var s := Run(Start(clusters), actions);
             cluster in s.stores && namespace in s.stores[cluster].namespaces
    requires SeparateNames(name, other) && name + "-" <= namespace
    ensures var store := Run(Start(clusters), actions).stores[cluster];
            var erased := RemoveNamespaces(store, ORG_LABEL, other).store;
            && namespace in erased.namespaces && erased.namespaces[namespace] == store.namespaces[namespace]
            && BindingsIn(erased, namespace) == BindingsIn(store, namespace)
  {
    RunKeepsSafe(Start(clusters), actions);
    SafeStateKeepsOthers(Run(Start(clusters), actions), cluster, name, namespace, other);
  }

  lemma SafeStateKeepsOthers(s: State, cluster: string, name: string, namespace: string, other: string)
    requires StoresSafe(s) && cluster in s.stores && namespace in s.stores[cluster].namespaces
    requires SeparateNames(name, other) && name + "-" <= namespace
    ensures var store := s.stores[cluster];
            var erased := RemoveNamespaces(store, ORG_LABEL, other).store;
            && namespace in erased.namespaces && erased.namespaces[namespace] == store.namespaces[namespace]
            && BindingsIn(erased, namespace) == BindingsIn(store, namespace)
  {
    var store := s.stores[cluster];
    assert Owned(s.orgs, namespace, store.namespaces[namespace]);
    var owner :| owner in s.orgs && store.namespaces[namespace] == OrgLabels(owner) && owner.name + "-" <= namespace;
    PrefixesAgree(owner.name, name, namespace);
    OtherLabelKept(store, namespace, owner.name, other);
  }

  lemma OtherLabelKept(store: Store, namespace: string, name: string, other: string)
    requires namespace in store.namespaces && store.namespaces[namespace] == map[ORG_LABEL := name] && name != other
    ensures var erased := RemoveNamespaces(store, ORG_LABEL, other).store;
            && namespace in erased.namespaces && erased.namespaces[namespace] == store.namespaces[namespace]
            && BindingsIn(erased, namespace) == BindingsIn(store, namespace)
  {
    assert namespace !in Labelled(store, ORG_LABEL, other);
  }

  /** In every reachable state, a namespace that maps to an org carries that org's label, provided
      every other org that ever existed is separately named. */
  lemma NamespaceCarriesItsOrgsLabel(clusters: set<string>, actions: seq<Action>, cluster: string,
                                     org: Org, namespace: string)
    requires var s := Run(Start(clusters), actions);
             && cluster in s.stores && namespace in s.stores[cluster].namespaces
             && forall other <- s.orgs :: other.name == org.name || SeparateNames(org.name, other.name)
    requires org.name + "-" <= namespace
    ensures Run(Start(clusters), actions).stores[cluster].namespaces[namespace] == OrgLabels(org)
  {
    RunKeepsSafe(Start(clusters), actions);
    var s := Run(Start(clusters), actions);
    var labels := s.stores[cluster].namespaces[namespace];
    assert Owned(s.orgs, namespace, labels);
    var owner :| owner in s.orgs && labels == OrgLabels(owner) && owner.name + "-" <= namespace;
    PrefixesAgree(owner.name, org.name, namespace);
  }
}

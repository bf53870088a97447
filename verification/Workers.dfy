/** The two controllers running side by side, one worker each, interleaved call by call.  Reads of
    custom resources go through a cache that may lag, any call may fail, and a worker may stop or
    crash at any point and start again with anything. */
module Workers {
  import opened Names
  import opened Api
  import opened Grants
  import opened OrgSpec
  import opened GlobalUserSpec

  /** Where the Org worker is in Org.Reconcile. */
  datatype OrgWorker =
    | OrgIdle
    | OrgListing(org: Org)
    | OrgLooping(org: Org, globals: seq<User>, spaces: seq<Space>)
    | OrgGranting(org: Org, globals: seq<User>, spaces: seq<Space>, cluster: string, todo: seq<Request>)
    | OrgErasing(name: string, clusters: set<string>)

  /** Where the GlobalUser worker is in GlobalUser.Reconcile. */
  datatype UserWorker =
    | UserIdle
    | UserLooping(user: GlobalUser, clusters: set<string>)
    | UserGranting(user: GlobalUser, clusters: set<string>, cluster: string, todo: seq<Request>)
    | UserPurging(name: string, clusters: set<string>)
    | UserDeleting(name: string, clusters: set<string>, cluster: string, keys: seq<Key>)

  datatype Owner = ByOrg | ByUser

  /** `orgs` and `users` hold every version that ever existed; `owners` remembers which worker created
      the binding last stored under a key. */
  datatype State = State(
    stores: map<string, Store>,
    orgs: set<Org>,
    users: set<GlobalUser>,
    org: OrgWorker,
    user: UserWorker,
    owners: map<(string, Key), Owner>)

  datatype Action =
    | PutOrg(newOrg: Org)                              // someone writes an Org
    | PutUser(newUser: GlobalUser)                     // someone writes a GlobalUser
    | OrgGet(org: Org)                                 // Get returns some version
    | OrgGetMissing(name: string)                      // Get returns NotFound
    | OrgList(items: seq<GlobalUser>)                  // List returns some versions
    | OrgCall(fault: Fault)                            // the next call of the loops, or their end
    | OrgErase(cluster: string, fault: Fault)          // DeleteAllOf on one more cluster
    | OrgStop                                          // an error elsewhere, or a crash
    | UserGet(user: GlobalUser)
    | UserGetMissing(name: string)
    | UserList(cluster: string, names: seq<string>)    // namespace List on one more cluster
    | UserCall(fault: Fault)
    | UserListBindings(cluster: string, keys: seq<Key>)
    | UserStop

  ghost predicate DistinctNames(items: seq<GlobalUser>) {
    forall i, j :: 0 <= i < j < |items| ==> items[i].name != items[j].name
  }

  /** One Create call by one of the workers. */
  function Stored(s: State, cluster: string, r: Request, fault: Fault): Reply
    requires cluster in s.stores
  {
    var store := s.stores[cluster];
    Deliver(store, AddBinding(store, KeyOf(r), BindingOf(r)), fault)
  }

  function AfterCreate(s: State, cluster: string, r: Request, fault: Fault, owner: Owner): State
    requires cluster in s.stores
  {
    var store := Stored(s, cluster, r, fault).store;
    s.(stores := s.stores[cluster := store],
       owners := if store == s.stores[cluster] then s.owners else s.owners[(cluster, KeyOf(r)) := owner])
  }

  /** The next call of Org.Reconcile's loops. */
  function OrgCalls(s: State, fault: Fault): State {
    match s.org
    case OrgLooping(org, globals, spaces) =>
      if spaces == [] || spaces[0].clusterName !in s.stores then s.(org := OrgIdle)
      else
        var cluster, store := spaces[0].clusterName, s.stores[spaces[0].clusterName];
        var reply := Deliver(store, AddNamespace(store, NamespaceOf(org, spaces[0]), OrgLabels(org)), fault);
        s.(stores := s.stores[cluster := reply.store],
           org := if reply.status == Ok || reply.status == AlreadyExists
                  then OrgGranting(org, globals, spaces[1..], cluster, Wanted(org, spaces[0], globals))
                  else OrgLooping(org, globals, spaces[1..]))
    case OrgGranting(org, globals, spaces, cluster, todo) =>
      if todo == [] || cluster !in s.stores then s.(org := OrgLooping(org, globals, spaces))
      else
        AfterCreate(s, cluster, todo[0], fault, ByOrg)
        .(org := if Stored(s, cluster, todo[0], fault).status == Ok
                 then OrgGranting(org, globals, spaces, cluster, todo[1..])
                 else OrgLooping(org, globals, spaces))
    case OrgErasing(_, clusters) => if clusters == {} then s.(org := OrgIdle) else s
    case _ => s
  }

  /** The next call of GlobalUser.Reconcile's loops. */
  function UserCalls(s: State, fault: Fault): State {
    match s.user
    case UserLooping(_, clusters) => if clusters == {} then s.(user := UserIdle) else s
    case UserPurging(_, clusters) => if clusters == {} then s.(user := UserIdle) else s
    case UserGranting(user, clusters, cluster, todo) =>
      if todo == [] || cluster !in s.stores then s.(user := UserLooping(user, clusters))
      else
        AfterCreate(s, cluster, todo[0], fault, ByUser)
        .(user := if Stored(s, cluster, todo[0], fault).status == Ok
                  then UserGranting(user, clusters, cluster, todo[1..])
                  else UserIdle)
    case UserDeleting(name, clusters, cluster, keys) =>
      if keys == [] || cluster !in s.stores then s.(user := UserPurging(name, clusters))
      else
        var store := s.stores[cluster];
        var reply := Deliver(store, RemoveBinding(store, keys[0]), fault);
        s.(stores := s.stores[cluster := reply.store],
           user := if reply.status == Ok then UserDeleting(name, clusters, cluster, keys[1..]) else UserIdle)
    case _ => s
  }

  /** One step; an action that is not enabled changes nothing. */
  ghost function Step(s: State, a: Action): State {
    match a
    case PutOrg(org) => s.(orgs := s.orgs + {org})
    case PutUser(user) => s.(users := s.users + {user})
    case OrgGet(org) => if s.org.OrgIdle? && org in s.orgs then s.(org := OrgListing(org)) else s
    case OrgGetMissing(name) => if s.org.OrgIdle? then s.(org := OrgErasing(name, s.stores.Keys)) else s
    case OrgList(items) =>
      if s.org.OrgListing? && (forall g <- items :: g in s.users) && DistinctNames(items)
      then s.(org := OrgLooping(s.org.org, AsUsers(items), s.org.org.spaces)) else s
    case OrgCall(fault) => OrgCalls(s, fault)
    case OrgErase(cluster, fault) =>
      if s.org.OrgErasing? && cluster in s.org.clusters && cluster in s.stores then
        var store := s.stores[cluster];
        var reply := DeliverErasure(store, ORG_LABEL, s.org.name, fault);
        s.(stores := s.stores[cluster := reply.store],
           org := if reply.status == Ok then OrgErasing(s.org.name, s.org.clusters - {cluster}) else OrgIdle)
      else s
    case OrgStop => s.(org := OrgIdle)
    case UserGet(user) =>
      if s.user.UserIdle? && user in s.users then s.(user := UserLooping(user, s.stores.Keys)) else s
    case UserGetMissing(name) => if s.user.UserIdle? then s.(user := UserPurging(name, s.stores.Keys)) else s
    case UserList(cluster, names) =>
      if s.user.UserLooping? && cluster in s.user.clusters && cluster in s.stores
         && Enumerates(names, CfNamespaces(s.stores[cluster]))
      then s.(user := UserGranting(s.user.user, s.user.clusters - {cluster}, cluster, UserRequests(s.user.user, names)))
      else s
    case UserCall(fault) => UserCalls(s, fault)
    case UserListBindings(cluster, keys) =>
      if s.user.UserPurging? && cluster in s.user.clusters && cluster in s.stores
         && Enumerates(keys, Matches(s.stores[cluster], s.user.name))
      then s.(user := UserDeleting(s.user.name, s.user.clusters - {cluster}, cluster, keys))
      else s
    case UserStop => s.(user := UserIdle)
  }

  ghost function Run(s: State, actions: seq<Action>): State
    decreases |actions|
  {
    if actions == [] then s else Run(Step(s, actions[0]), actions[1..])
  }

  /** Empty clusters, no custom resources yet. */
  function Start(clusters: set<string>): State {
    State(map cluster | cluster in clusters :: Store(map[], map[]), {}, {}, OrgIdle, UserIdle, map[])
  }
}

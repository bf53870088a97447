/** The Kubernetes objects the controllers read and write, and the assumed contract of one API
    server: what each call does to its store, and how a call can fail. */
module Api {

  type Labels = map<string, string>

  const ORG_LABEL := "code.cloudfoundry.org/org"
  const ROLE_LEVEL_LABEL := "code.cloudfoundry.org/role_level"
  const GLOBAL_LEVEL := "global"
  const OTHER_LEVEL := "other"
  const RBAC_GROUP := "rbac.authorization.k8s.io"
  const USER_KIND := "User"
  const CLUSTER_ROLE_KIND := "ClusterRole"

  // Custom resources of the central cluster.
  datatype User = User(name: string, roles: seq<string>)
  datatype Space = Space(name: string, clusterName: string, users: seq<User>)
  datatype Org = Org(name: string, users: seq<User>, spaces: seq<Space>)
  datatype GlobalUser = GlobalUser(name: string, roles: seq<string>)

  // Objects of the workload clusters.
  datatype Subject = Subject(apiGroup: string, kind: string, name: string)
  datatype RoleRef = RoleRef(apiGroup: string, kind: string, name: string)
  datatype RoleBinding = RoleBinding(labels: Labels, subjects: seq<Subject>, roleRef: RoleRef)
  datatype Key = Key(namespace: string, name: string)

  /** What one workload cluster stores. */
  datatype Store = Store(namespaces: map<string, Labels>, bindings: map<Key, RoleBinding>)

  /** Bindings live in existing namespaces. */
  ghost predicate WellPlaced(s: Store) {
    forall key <- s.bindings :: key.namespace in s.namespaces
  }

  datatype Status = Ok | AlreadyExists | NotFound | Unavailable

  /** How the network treats one call: it is served; it is refused and changes nothing; or it is
      carried out but the caller sees an error all the same.  A call over many objects can also fail
      after it was carried out on some of them. */
  datatype Fault = Served | Refused | ReplyLost | Interrupted(reached: set<string>)

  datatype Reply = Reply(store: Store, status: Status)

  // The calls as a reachable server carries them out.

  function AddNamespace(s: Store, name: string, labels: Labels): Reply {
    if name in s.namespaces then Reply(s, AlreadyExists)
    else Reply(s.(namespaces := s.namespaces[name := labels]), Ok)
  }

  function AddBinding(s: Store, key: Key, binding: RoleBinding): Reply {
    if key.namespace !in s.namespaces then Reply(s, NotFound)
    else if key in s.bindings then Reply(s, AlreadyExists)
    else Reply(s.(bindings := s.bindings[key := binding]), Ok)
  }

  function RemoveBinding(s: Store, key: Key): Reply {
    if key !in s.bindings then Reply(s, NotFound)
    else Reply(s.(bindings := s.bindings - {key}), Ok)
  }

  /** Namespaces that carry `labelKey = value`. */
  function Labelled(s: Store, labelKey: string, value: string): set<string> {
    set name | name in s.namespaces && labelKey in s.namespaces[name] && s.namespaces[name][labelKey] == value
  }

  /** Deleting a namespace removes its bindings. */
  function Without(s: Store, doomed: set<string>): Store {
    Store(s.namespaces - doomed, map key | key in s.bindings && key.namespace !in doomed :: s.bindings[key])
  }

  /** DeleteAllOf over namespaces. */
  function RemoveNamespaces(s: Store, labelKey: string, value: string): Reply {
    Reply(Without(s, Labelled(s, labelKey, value)), Ok)
  }

  /** What the caller sees of a call under a given fault. */
  function Deliver(before: Store, reply: Reply, fault: Fault): Reply {
    match fault
    case Served => reply
    case Refused => Reply(before, Unavailable)
    case ReplyLost => Reply(reply.store, Unavailable)
    case Interrupted(_) => Reply(before, Unavailable)
  }

  /** DeleteAllOf is the call over many objects. */
  function DeliverErasure(s: Store, labelKey: string, value: string, fault: Fault): Reply {
    if fault.Interrupted? then Reply(Without(s, Labelled(s, labelKey, value) * fault.reached), Unavailable)
    else Deliver(s, RemoveNamespaces(s, labelKey, value), fault)
  }

  /** A cluster together with the faults that its next calls will meet; once they are used up every
      call is served. */
  datatype Cluster = Cluster(store: Store, faults: seq<Fault>)

  datatype Answer = Answer(cluster: Cluster, status: Status)

  function NextFault(faults: seq<Fault>): Fault {
    if faults == [] then Served else faults[0]
  }

  function LaterFaults(faults: seq<Fault>): seq<Fault> {
    if faults == [] then [] else faults[1..]
  }

  function Call(c: Cluster, reply: Reply): Answer {
    var seen := Deliver(c.store, reply, NextFault(c.faults));
    Answer(Cluster(seen.store, LaterFaults(c.faults)), seen.status)
  }

  function Erase(c: Cluster, labelKey: string, value: string): Answer {
    var seen := DeliverErasure(c.store, labelKey, value, NextFault(c.faults));
    Answer(Cluster(seen.store, LaterFaults(c.faults)), seen.status)
  }

  /** All workload clusters by name. */
  type World = map<string, Cluster>

  ghost predicate FaultFree(w: World) {
    forall name <- w :: w[name].faults == []
  }

  /** Why a reconcile reported an error. */
  datatype Failure =
    | GetFailed
    | ListFailed
    | UnknownCluster(name: string)
    | NamespaceFailed(status: Status)
    | BindingFailed(status: Status)
    | DeleteFailed(status: Status)

  datatype Outcome = Done | Failed(failure: Failure)

  /** Everything in `s` is still in `s'`, unaltered. */
  ghost predicate Grows(s: Store, s': Store) {
    && (forall name <- s.namespaces :: name in s'.namespaces && s'.namespaces[name] == s.namespaces[name])
    && (forall key <- s.bindings :: key in s'.bindings && s'.bindings[key] == s.bindings[key])
  }

  ghost predicate WorldGrows(w: World, w': World) {
    w'.Keys == w.Keys && forall name <- w :: Grows(w[name].store, w'[name].store)
  }

  ghost predicate SameStores(w: World, w': World) {
    w'.Keys == w.Keys && forall name <- w :: w'[name].store == w[name].store
  }

  /** Two worlds that differ in one cluster only. */
  lemma OneClusterChanged(before: World, after: World, name: string)
    requires name in before && after.Keys == before.Keys
    requires forall other <- before :: other != name ==> after[other] == before[other]
    ensures after == before[name := after[name]]
  {
  }

  /** `xs` lists every element of `s` exactly once: what a List call or a Go map range yields. */
  ghost predicate Enumerates<T(!new)>(xs: seq<T>, s: set<T>) {
    && (forall x :: x in xs <==> x in s)
    && (forall i, j :: 0 <= i < j < |xs| ==> xs[i] != xs[j])
  }
}

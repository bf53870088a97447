/** Role bindings as both controllers create them: user by user and role by role, stopping at the
    first Create call that reports an error. */
module Grants {
  import opened Names
  import opened Api

  /** One Create call of the nested loops. */
  datatype Request = Request(namespace: string, user: string, role: string, level: string)

  function KeyOf(r: Request): Key {
    Key(r.namespace, Join(r.user, r.role))
  }

  function BindingOf(r: Request): RoleBinding {
    RoleBinding(map[ROLE_LEVEL_LABEL := r.level],
                [Subject(RBAC_GROUP, USER_KIND, r.user)],
                RoleRef(RBAC_GROUP, CLUSTER_ROLE_KIND, r.role))
  }

  function RoleRequests(user: string, roles: seq<string>, level: string, namespace: string): (rs: seq<Request>)
    ensures |rs| == |roles|
    ensures forall i :: 0 <= i < |roles| ==> rs[i] == Request(namespace, user, roles[i], level)
  {
    if roles == [] then []
    else [Request(namespace, user, roles[0], level)] + RoleRequests(user, roles[1..], level, namespace)
  }

  /** The calls of the nested user and role loops, in order. */
  function Flatten(users: seq<User>, level: string, namespace: string): seq<Request> {
    if users == [] then []
    else RoleRequests(users[0].name, users[0].roles, level, namespace) + Flatten(users[1..], level, namespace)
  }

  lemma FlattenFrom(users: seq<User>, i: nat, level: string, namespace: string)
    requires i < |users|
    ensures users[i].roles[0..] == users[i].roles
    ensures Flatten(users[i..], level, namespace)
            == RoleRequests(users[i].name, users[i].roles, level, namespace) + Flatten(users[i + 1..], level, namespace)
  {
    assert users[i..][1..] == users[i + 1..];
  }

  lemma RolesFrom(user: string, roles: seq<string>, j: nat, level: string, namespace: string, after: seq<Request>)
    requires j < |roles|
    ensures var todo := RoleRequests(user, roles[j..], level, namespace) + after;
            && todo != [] && todo[0] == Request(namespace, user, roles[j], level)
            && todo[1..] == RoleRequests(user, roles[j + 1..], level, namespace) + after
  {
    assert roles[j..][1..] == roles[j + 1..];
  }

  function Create(c: Cluster, r: Request): Answer {
    Call(c, AddBinding(c.store, KeyOf(r), BindingOf(r)))
  }

  /** Issue the requests in order; stop at the first error. */
  function Pass(c: Cluster, requests: seq<Request>): Answer
    decreases |requests|
  {
    if requests == [] then Answer(c, Ok)
    else
      var a := Create(c, requests[0]);
      if a.status != Ok then a else Pass(a.cluster, requests[1..])
  }

  lemma {:induction false} PassAppend(c: Cluster, first: seq<Request>, second: seq<Request>)
    ensures Pass(c, first + second)
            == (var a := Pass(c, first); if a.status != Ok then a else Pass(a.cluster, second))
    decreases |first|
  {
    if first == [] {
      assert first + second == second;
    } else {
      assert (first + second)[1..] == first[1..] + second;
      PassAppend(Create(c, first[0]).cluster, first[1..], second);
    }
  }

  lemma {:induction false} FlattenAppend(users: seq<User>, more: seq<User>, level: string, namespace: string)
    ensures Flatten(users + more, level, namespace)
            == Flatten(users, level, namespace) + Flatten(more, level, namespace)
  {
    if users == [] {
      assert users + more == more;
    } else {
      assert (users + more)[1..] == users[1..] + more;
      FlattenAppend(users[1..], more, level, namespace);
    }
  }

  /** Every request of a flattened list comes from a listed user who holds the role. */
  lemma {:induction false} FlattenMember(users: seq<User>, level: string, namespace: string, r: Request)
    requires r in Flatten(users, level, namespace)
    ensures r.namespace == namespace && r.level == level
    ensures exists u :: u in users && r.user == u.name && r.role in u.roles
  {
    if r in RoleRequests(users[0].name, users[0].roles, level, namespace) {
      assert users[0] in users;
    } else {
      FlattenMember(users[1..], level, namespace, r);
    }
  }

  function RoleCount(users: seq<User>): nat {
    if users == [] then 0 else |users[0].roles| + RoleCount(users[1..])
  }

  lemma {:induction false} FlattenLength(users: seq<User>, level: string, namespace: string)
    ensures |Flatten(users, level, namespace)| == RoleCount(users)
  {
    if users != [] {
      FlattenLength(users[1..], level, namespace);
    }
  }

  /** Role `j` of user `i` comes after all roles of the users before and its own earlier roles. */
  lemma {:induction false} FlattenAt(users: seq<User>, level: string, namespace: string, i: nat, j: nat)
    requires i < |users| && j < |users[i].roles|
    ensures RoleCount(users[..i]) + j < |Flatten(users, level, namespace)|
    ensures Flatten(users, level, namespace)[RoleCount(users[..i]) + j]
            == Request(namespace, users[i].name, users[i].roles[j], level)
    decreases i
  {
    if i > 0 {
      var rest := users[1..];
      FlattenAt(rest, level, namespace, i - 1, j);
      assert users[..i][1..] == rest[..i - 1];
    }
  }

  /** The pass got through the first `k` requests; then it was at the end, or met its first error. */
  ghost predicate StoppedAt(c: Cluster, requests: seq<Request>, k: int) {
    && 0 <= k <= |requests| && Pass(c, requests[..k]).status == Ok
    && if k == |requests| then Pass(c, requests).status == Ok
       else Pass(c, requests).status != Ok
            && Pass(c, requests) == Create(Pass(c, requests[..k]).cluster, requests[k])
  }

  /** Under any faults a pass stops at its first error: that call is its last. */
  lemma {:induction false} PassStopsAtFirstError(c: Cluster, requests: seq<Request>)
    ensures exists k :: StoppedAt(c, requests, k)
    decreases |requests|
  {
    if requests == [] {
      assert StoppedAt(c, requests, 0);
    } else {
      var a, rest := Create(c, requests[0]), requests[1..];
      if a.status != Ok {
        assert StoppedAt(c, requests, 0);
      } else {
        PassStopsAtFirstError(a.cluster, rest);
        var k :| StoppedAt(a.cluster, rest, k);
        assert requests[..k + 1][0] == requests[0] && requests[..k + 1][1..] == rest[..k];
        assert StoppedAt(c, requests, k + 1);
      }
    }
  }

  // ---- What a pass leaves behind, with no faults ----

  ghost predicate InNamespaces(s: Store, requests: seq<Request>) {
    forall r <- requests :: r.namespace in s.namespaces
  }

  /** The keys are pairwise distinct and none is taken. */
  ghost predicate Fresh(taken: set<Key>, requests: seq<Request>) {
    && (forall i, j :: 0 <= i < j < |requests| ==> KeyOf(requests[i]) != KeyOf(requests[j]))
    && (forall i :: 0 <= i < |requests| ==> KeyOf(requests[i]) !in taken)
  }

  ghost predicate DistinctKeys(requests: seq<Request>) {
    Fresh({}, requests)
  }

  /** The first `k` requests are fresh, and no longer prefix is. */
  ghost predicate LongestFreshPrefix(taken: set<Key>, requests: seq<Request>, k: nat) {
    && k <= |requests|
    && Fresh(taken, requests[..k])
    && (k < |requests| ==> !Fresh(taken, requests[..k + 1]))
  }

  /** The bindings that `requests` ask for. */
  function Granted(requests: seq<Request>): map<Key, RoleBinding> {
    if requests == [] then map[]
    else map[KeyOf(requests[0]) := BindingOf(requests[0])] + Granted(requests[1..])
  }

  lemma {:induction false} GrantedKeys(requests: seq<Request>, key: Key)
    ensures key in Granted(requests) <==> exists i :: 0 <= i < |requests| && KeyOf(requests[i]) == key
  {
    if requests != [] {
      GrantedKeys(requests[1..], key);
      if key in Granted(requests[1..]) {
        var i :| 0 <= i < |requests| - 1 && KeyOf(requests[1..][i]) == key;
        assert KeyOf(requests[i + 1]) == key;
      }
      if i :| 0 < i < |requests| && KeyOf(requests[i]) == key {
        assert KeyOf(requests[1..][i - 1]) == key;
      }
    }
  }

  lemma {:induction false} LongestFreshPrefixExists(taken: set<Key>, requests: seq<Request>)
    ensures exists k: nat :: LongestFreshPrefix(taken, requests, k)
    decreases |requests|
  {
    if Fresh(taken, requests) {
      assert requests[..|requests|] == requests;
      assert LongestFreshPrefix(taken, requests, |requests|);
    } else {
      var shorter := requests[..|requests| - 1];
      LongestFreshPrefixExists(taken, shorter);
      var k: nat :| LongestFreshPrefix(taken, shorter, k);
      assert requests[..k] == shorter[..k];
      assert if k < |shorter| then requests[..k + 1] == shorter[..k + 1] else requests[..k + 1] == requests;
      assert LongestFreshPrefix(taken, requests, k);
    }
  }

  lemma FreshCons(taken: set<Key>, head: Request, rest: seq<Request>)
    ensures Fresh(taken, [head] + rest) <==> KeyOf(head) !in taken && Fresh(taken + {KeyOf(head)}, rest)
  {
    var all := [head] + rest;
    assert all[0] == head && forall i :: 0 <= i < |rest| ==> rest[i] == all[i + 1];
    if KeyOf(head) !in taken && Fresh(taken + {KeyOf(head)}, rest) {
      forall i, j | 0 <= i < j < |all| ensures KeyOf(all[i]) != KeyOf(all[j]) {
        assert all[j] == rest[j - 1];
        assert i > 0 ==> all[i] == rest[i - 1];
      }
      assert forall i :: 0 < i < |all| ==> all[i] == rest[i - 1];
    }
  }

  lemma LongestFreshPrefixTail(taken: set<Key>, head: Request, rest: seq<Request>, k: nat)
    requires LongestFreshPrefix(taken, [head] + rest, k)
    ensures k > 0 <==> KeyOf(head) !in taken
    ensures k > 0 ==> LongestFreshPrefix(taken + {KeyOf(head)}, rest, k - 1)
  {
    var all := [head] + rest;
    assert all[..1] == [head] + [];
    FreshCons(taken, head, []);
    if k > 0 {
      assert all[..k] == [head] + rest[..k - 1];
      FreshCons(taken, head, rest[..k - 1]);
      if k < |all| {
        assert all[..k + 1] == [head] + rest[..k];
        FreshCons(taken, head, rest[..k]);
      }
    }
  }

  lemma GrantedCons(bindings: map<Key, RoleBinding>, requests: seq<Request>, k: nat)
    requires 0 < k <= |requests|
    requires LongestFreshPrefix(bindings.Keys + {KeyOf(requests[0])}, requests[1..], k - 1)
    ensures bindings[KeyOf(requests[0]) := BindingOf(requests[0])] + Granted(requests[1..][..k - 1])
            == bindings + Granted(requests[..k])
  {
    var head, rest := requests[0], requests[1..][..k - 1];
    assert requests[..k][0] == head && requests[..k][1..] == rest;
    GrantedKeys(rest, KeyOf(head));
  }

  lemma PassHead(c: Cluster, requests: seq<Request>)
    requires c.faults == [] && requests != [] && requests[0].namespace in c.store.namespaces
    ensures Pass(c, requests)
            == (var r := requests[0];
                if KeyOf(r) in c.store.bindings then Answer(c, AlreadyExists)
                else Pass(Cluster(c.store.(bindings := c.store.bindings[KeyOf(r) := BindingOf(r)]), []), requests[1..]))
  {
  }

  /** The answer of a pass that got through the first `k` requests. */
  function Through(c: Cluster, requests: seq<Request>, k: nat): Answer
    requires k <= |requests|
  {
    Answer(Cluster(c.store.(bindings := c.store.bindings + Granted(requests[..k])), []),
           if k == |requests| then Ok else AlreadyExists)
  }

  lemma ThroughNone(c: Cluster, requests: seq<Request>)
    requires c.faults == []
    ensures Through(c, requests, 0) == Answer(c, if requests == [] then Ok else AlreadyExists)
  {
    assert c.store.bindings + Granted(requests[..0]) == c.store.bindings;
  }

  /** With no faults, a pass creates exactly the longest prefix whose keys are pairwise distinct and
      absent, and succeeds exactly when that prefix is the whole list. */
  lemma {:induction false} PassCreatesLongestFreshPrefix(c: Cluster, requests: seq<Request>, k: nat)
    requires c.faults == [] && InNamespaces(c.store, requests)
    requires LongestFreshPrefix(c.store.bindings.Keys, requests, k)
    ensures Pass(c, requests)
            == Answer(Cluster(c.store.(bindings := c.store.bindings + Granted(requests[..k])), []),
                      if k == |requests| then Ok else AlreadyExists)
    decreases |requests|
  {
    if requests == [] {
      ThroughNone(c, requests);
    } else {
      var head, rest := requests[0], requests[1..];
      assert requests == [head] + rest && head in requests;
      LongestFreshPrefixTail(c.store.bindings.Keys, head, rest, k);
      PassHead(c, requests);
      if k == 0 {
        ThroughNone(c, requests);
      } else {
        var grown := c.store.bindings[KeyOf(head) := BindingOf(head)];
        assert grown.Keys == c.store.bindings.Keys + {KeyOf(head)};
        PassCreatesLongestFreshPrefix(Cluster(c.store.(bindings := grown), []), rest, k - 1);
        GrantedCons(c.store.bindings, requests, k);
      }
    }
  }

  /** With no faults, a pass succeeds exactly when all its keys are fresh, and then creates them all. */
  lemma PassAllOrNot(c: Cluster, requests: seq<Request>)
    requires c.faults == [] && InNamespaces(c.store, requests)
    ensures Pass(c, requests).status == Ok <==> Fresh(c.store.bindings.Keys, requests)
    ensures Fresh(c.store.bindings.Keys, requests) ==>
              Pass(c, requests).cluster == Cluster(c.store.(bindings := c.store.bindings + Granted(requests)), [])
  {
    var taken := c.store.bindings.Keys;
    LongestFreshPrefixExists(taken, requests);
    var k: nat :| LongestFreshPrefix(taken, requests, k);
    PassCreatesLongestFreshPrefix(c, requests, k);
    assert requests[..|requests|] == requests;
    if k < |requests| {
      PrefixOfFresh(taken, requests, k + 1);
    }
  }

  lemma PrefixOfFresh(taken: set<Key>, requests: seq<Request>, k: nat)
    requires k <= |requests|
    ensures Fresh(taken, requests) ==> Fresh(taken, requests[..k])
  {
  }

  /** Among pairwise distinct keys every request finds its own binding under its key. */
  lemma {:induction false} GrantedBinding(requests: seq<Request>, r: Request)
    requires DistinctKeys(requests) && r in requests
    ensures KeyOf(r) in Granted(requests) && Granted(requests)[KeyOf(r)] == BindingOf(r)
    decreases |requests|
  {
    var head, rest := requests[0], requests[1..];
    assert requests == [head] + rest;
    FreshCons({}, head, rest);
    GrantedKeys(rest, KeyOf(head));
    if r != head {
      GrantedBinding(rest, r);
    }
  }

  /** Distinct keys are conserved: there are as many bindings as requests. */
  lemma {:induction false} GrantedSize(requests: seq<Request>)
    requires DistinctKeys(requests)
    ensures |Granted(requests)| == |requests|
    decreases |requests|
  {
    if requests != [] {
      var head, rest := requests[0], requests[1..];
      assert requests == [head] + rest;
      FreshCons({}, head, rest);
      GrantedKeys(rest, KeyOf(head));
      GrantedSize(rest);
      assert Granted(requests).Keys == {KeyOf(head)} + Granted(rest).Keys;
      assert |Granted(requests).Keys| == 1 + |Granted(rest).Keys|;
    }
  }

  // ---- What a pass keeps, under any faults ----

  /** A pass only ever adds, it adds only requested keys, and it leaves the namespaces alone. */
  lemma {:induction false} PassBounds(c: Cluster, requests: seq<Request>)
    ensures var s' := Pass(c, requests).cluster.store;
            && Grows(c.store, s')
            && s'.namespaces == c.store.namespaces
            && (forall key <- s'.bindings ::
                  key in c.store.bindings
                  || exists r :: r in requests && KeyOf(r) == key && s'.bindings[key] == BindingOf(r))
    decreases |requests|
  {
    if requests != [] {
      var a := Create(c, requests[0]);
      if a.status == Ok {
        PassBounds(a.cluster, requests[1..]);
        assert forall r :: r in requests[1..] ==> r in requests;
      }
      assert requests[0] in requests;
    }
  }

  /** Under any faults, a pass that reports success has created every requested binding under its own
      key, and none of these keys was taken. */
  lemma {:induction false} PassSuccessIsComplete(c: Cluster, requests: seq<Request>)
    requires Pass(c, requests).status == Ok
    ensures forall r <- requests ::
              && KeyOf(r) !in c.store.bindings && KeyOf(r) in Pass(c, requests).cluster.store.bindings
              && Pass(c, requests).cluster.store.bindings[KeyOf(r)] == BindingOf(r)
    decreases |requests|
  {
    if requests != [] {
      var a := Create(c, requests[0]);
      PassSuccessIsComplete(a.cluster, requests[1..]);
      PassBounds(a.cluster, requests[1..]);
      assert forall r <- requests :: r == requests[0] || r in requests[1..];
    }
  }

  lemma {:induction false} PassKeepsFaultFree(c: Cluster, requests: seq<Request>)
    requires c.faults == []
    ensures Pass(c, requests).cluster.faults == []
    decreases |requests|
  {
    if requests != [] {
      PassKeepsFaultFree(Create(c, requests[0]).cluster, requests[1..]);
    }
  }

  /** With no faults and its first key present, a pass changes nothing. */
  lemma PassBlocked(c: Cluster, requests: seq<Request>)
    requires c.faults == [] && requests != []
    requires requests[0].namespace in c.store.namespaces && KeyOf(requests[0]) in c.store.bindings
    ensures Pass(c, requests) == Answer(c, AlreadyExists)
  {
  }

  /** With no faults, the first key is present after any pass over an existing namespace. */
  lemma PassLeavesFirstKey(c: Cluster, requests: seq<Request>)
    requires c.faults == [] && requests != [] && requests[0].namespace in c.store.namespaces
    ensures KeyOf(requests[0]) in Pass(c, requests).cluster.store.bindings
  {
    var a := Create(c, requests[0]);
    assert KeyOf(requests[0]) in a.cluster.store.bindings;
    PassBounds(a.cluster, requests[1..]);
  }
}

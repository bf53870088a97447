/** API clients as objects: the clusters change in place under the calls made to them. */
module Clients {
  import opened Api
  import opened GlobalUserSpec

  /** Go ranges over a map in any order it likes. */
  method Range<T(==, !new)>(s: set<T>) returns (order: seq<T>)
    ensures Enumerates(order, s)
  {
    order := [];
    var left := s;
    while left != {}
      invariant left <= s && Enumerates(order, s - left)
    {
      var x :| x in left;
      order, left := order + [x], left - {x};
    }
  }

  /** The client of one workload cluster. */
  class Client {
    var namespaces: map<string, Labels>
    var bindings: map<Key, RoleBinding>
    var faults: seq<Fault>

    ghost function View(): Cluster
      reads this
    {
      Cluster(Store(namespaces, bindings), faults)
    }

    constructor (cluster: Cluster)
      ensures View() == cluster
    {
      this.namespaces, this.bindings, this.faults := cluster.store.namespaces, cluster.store.bindings, cluster.faults;
    }

    method NextFault() returns (fault: Fault)
      modifies this`faults
      ensures fault == Api.NextFault(old(faults)) && faults == LaterFaults(old(faults))
    {
      fault := Served;
      if faults != [] {
        fault, faults := faults[0], faults[1..];
      }
    }

    method CreateNamespace(name: string, labels: Labels) returns (status: Status)
      modifies this
      ensures Answer(View(), status) == Call(old(View()), AddNamespace(old(View()).store, name, labels))
      ensures faults == if old(faults) == [] then [] else old(faults)[1..]
      ensures bindings == old(bindings)
      ensures old(faults) == [] || old(faults)[0] == Served ==>
                && status == (if name in old(namespaces) then AlreadyExists else Ok)
                && namespaces == if name in old(namespaces) then old(namespaces) else old(namespaces)[name := labels]
      ensures old(faults) != [] && old(faults)[0] == ReplyLost ==>
                && status == Unavailable
                && namespaces == if name in old(namespaces) then old(namespaces) else old(namespaces)[name := labels]
      ensures old(faults) != [] && (old(faults)[0] == Refused || old(faults)[0].Interrupted?) ==>
                status == Unavailable && namespaces == old(namespaces)
    {
      var fault := NextFault();
      if fault == Refused || fault.Interrupted? { return Unavailable; }
      if name in namespaces {
        status := AlreadyExists;
      } else {
        namespaces, status := namespaces[name := labels], Ok;
      }
      if fault == ReplyLost { status := Unavailable; }
    }

    method CreateBinding(key: Key, binding: RoleBinding) returns (status: Status)
      modifies this
      ensures Answer(View(), status) == Call(old(View()), AddBinding(old(View()).store, key, binding))
      ensures faults == if old(faults) == [] then [] else old(faults)[1..]
      ensures namespaces == old(namespaces)
      ensures var free := key.namespace in old(namespaces) && key !in old(bindings);
              && (old(faults) == [] || old(faults)[0] == Served ==>
                    && status == (if key.namespace !in old(namespaces) then NotFound
                                  else if key in old(bindings) then AlreadyExists else Ok)
                    && bindings == if free then old(bindings)[key := binding] else old(bindings))
              && (old(faults) != [] && old(faults)[0] == ReplyLost ==>
                    && status == Unavailable
                    && bindings == if free then old(bindings)[key := binding] else old(bindings))
      ensures old(faults) != [] && (old(faults)[0] == Refused || old(faults)[0].Interrupted?) ==>
                status == Unavailable && bindings == old(bindings)
    {
      var fault := NextFault();
      if fault == Refused || fault.Interrupted? { return Unavailable; }
      if key.namespace !in namespaces {
        status := NotFound;
      } else if key in bindings {
        status := AlreadyExists;
      } else {
        bindings, status := bindings[key := binding], Ok;
      }
      if fault == ReplyLost { status := Unavailable; }
    }

    method DeleteBinding(key: Key) returns (status: Status)
      modifies this
      ensures Answer(View(), status) == Call(old(View()), RemoveBinding(old(View()).store, key))
      ensures faults == if old(faults) == [] then [] else old(faults)[1..]
      ensures namespaces == old(namespaces)
      ensures old(faults) == [] || old(faults)[0] == Served ==>
                && status == (if key in old(bindings) then Ok else NotFound)
                && bindings == old(bindings) - {key}
      ensures old(faults) != [] && old(faults)[0] == ReplyLost ==>
                status == Unavailable && bindings == old(bindings) - {key}
      ensures old(faults) != [] && (old(faults)[0] == Refused || old(faults)[0].Interrupted?) ==>
                status == Unavailable && bindings == old(bindings)
    {
      var fault := NextFault();
      if fault == Refused || fault.Interrupted? { return Unavailable; }
      if key !in bindings {
        status := NotFound;
      } else {
        bindings, status := bindings - {key}, Ok;
      }
      if fault == ReplyLost { status := Unavailable; }
    }

    method DeleteNamespaces(labelKey: string, value: string) returns (status: Status)
      modifies this
      ensures Answer(View(), status) == Erase(old(View()), labelKey, value)
      ensures faults == if old(faults) == [] then [] else old(faults)[1..]
      ensures status == if old(faults) == [] || old(faults)[0] == Served then Ok else Unavailable
      ensures forall name ::
                var labelled := name in old(namespaces) && labelKey in old(namespaces)[name]
                                && old(namespaces)[name][labelKey] == value;
                var reached := old(faults) == [] || old(faults)[0] == Served || old(faults)[0] == ReplyLost
                               || (old(faults)[0].Interrupted? && name in old(faults)[0].reached);
                && (name in namespaces <==> name in old(namespaces) && !(labelled && reached))
                && (name in namespaces ==> namespaces[name] == old(namespaces)[name])
      ensures forall key ::
                && (key in bindings <==> key in old(bindings)
                                         && (key.namespace in old(namespaces) ==> key.namespace in namespaces))
                && (key in bindings ==> bindings[key] == old(bindings)[key])
    {
      var fault := NextFault();
      if fault == Refused { return Unavailable; }
      var doomed := Labelled(Store(namespaces, bindings), labelKey, value);
      if fault.Interrupted? { doomed := doomed * fault.reached; }
      namespaces := namespaces - doomed;
      bindings := map key | key in bindings && key.namespace !in doomed :: bindings[key];
      status := if fault == Served then Ok else Unavailable;
    }

    /** Namespaces that have the org label, in any order. */
    method ListCfNamespaces() returns (status: Status, names: seq<string>)
      modifies this`faults
      ensures Answer(View(), status) == List(old(View()))
      ensures status == Ok ==> Enumerates(names, CfNamespaces(View().store))
      ensures status == if old(faults) == [] || old(faults)[0] == Served then Ok else Unavailable
      ensures status == Ok ==>
                && (forall name :: name in names <==>
                      name in namespaces && "code.cloudfoundry.org/org" in namespaces[name])
                && (forall i, j :: 0 <= i < j < |names| ==> names[i] != names[j])
    {
      var fault := NextFault();
      names := [];
      if fault != Served { return Unavailable, names; }
      names := Range(CfNamespaces(Store(namespaces, bindings)));
      status := Ok;
    }

    /** Global bindings that the subject index has under this name, in any order. */
    method ListGlobalBindings(user: string) returns (status: Status, keys: seq<Key>)
      modifies this`faults
      ensures Answer(View(), status) == List(old(View()))
      ensures status == Ok ==> Enumerates(keys, Matches(View().store, user))
      ensures status == if old(faults) == [] || old(faults)[0] == Served then Ok else Unavailable
      ensures status == Ok ==>
                && (forall key :: key in keys <==>
                      key in bindings && GlobalBindingOf(bindings[key], user))
                && (forall i, j :: 0 <= i < j < |keys| ==> keys[i] != keys[j])
    {
      var fault := NextFault();
      keys := [];
      if fault != Served { return Unavailable, keys; }
      keys := Range(Matches(Store(namespaces, bindings), user));
      forall key | key in bindings ensures key in keys <==> GlobalBindingOf(bindings[key], user) {
        GlobalForExactly(bindings[key], user);
      }
      status := Ok;
    }
  }

  /** `items` holds every global user of the map once, and so each name once. */
  ghost predicate ListsUsers(items: seq<GlobalUser>, globalUsers: map<string, GlobalUser>) {
    && Enumerates(items, globalUsers.Values)
    && (forall name <- globalUsers :: globalUsers[name] in items && globalUsers[name].name == name)
    && forall i, j :: 0 <= i < j < |items| ==> items[i].name != items[j].name
  }

  lemma KeyedValuesListOnce(items: seq<GlobalUser>, globalUsers: map<string, GlobalUser>)
    requires Enumerates(items, globalUsers.Values)
    requires forall name <- globalUsers :: globalUsers[name].name == name
    ensures ListsUsers(items, globalUsers)
  {
    forall i, j | 0 <= i < j < |items| ensures items[i].name != items[j].name {
      assert items[i] in globalUsers.Values && items[j] in globalUsers.Values;
      assert items[i] == globalUsers[items[i].name] && items[j] == globalUsers[items[j].name];
    }
  }

  /** What the central cluster's client reads: the custom resources, each under its own name. */
  class Central {
    var orgs: map<string, Org>
    var globalUsers: map<string, GlobalUser>
    var faults: seq<Fault>

    ghost predicate Valid()
      reads this
    {
      && (forall name <- orgs :: orgs[name].name == name)
      && (forall name <- globalUsers :: globalUsers[name].name == name)
    }

    constructor (orgs: map<string, Org>, globalUsers: map<string, GlobalUser>, faults: seq<Fault>)
      requires forall name <- orgs :: orgs[name].name == name
      requires forall name <- globalUsers :: globalUsers[name].name == name
      ensures Valid() && this.orgs == orgs && this.globalUsers == globalUsers && this.faults == faults
    {
      this.orgs, this.globalUsers, this.faults := orgs, globalUsers, faults;
    }

    method NextFault() returns (fault: Fault)
      modifies this`faults
      ensures fault == Api.NextFault(old(faults)) && faults == LaterFaults(old(faults))
    {
      fault := Served;
      if faults != [] {
        fault, faults := faults[0], faults[1..];
      }
    }

    method GetOrg(name: string) returns (status: Status, org: Org)
      requires Valid()
      modifies this`faults
      ensures faults == if old(faults) == [] then [] else old(faults)[1..]
      ensures status == if old(faults) != [] && old(faults)[0] != Served then Unavailable
                        else if name in orgs then Ok else NotFound
      ensures status == Ok ==> name in orgs && org == orgs[name] && org.name == name
    {
      var fault := NextFault();
      org := Org("", [], []);
      if fault != Served { return Unavailable, org; }
      if name in orgs { return Ok, orgs[name]; }
      status := NotFound;
    }

    method GetGlobalUser(name: string) returns (status: Status, user: GlobalUser)
      requires Valid()
      modifies this`faults
      ensures faults == if old(faults) == [] then [] else old(faults)[1..]
      ensures status == if old(faults) != [] && old(faults)[0] != Served then Unavailable
                        else if name in globalUsers then Ok else NotFound
      ensures status == Ok ==> name in globalUsers && user == globalUsers[name] && user.name == name
    {
      var fault := NextFault();
      user := GlobalUser("", []);
      if fault != Served { return Unavailable, user; }
      if name in globalUsers { return Ok, globalUsers[name]; }
      status := NotFound;
    }

    /** All global users, in any order. */
    method ListGlobalUsers() returns (status: Status, items: seq<GlobalUser>)
      requires Valid()
      modifies this`faults
      ensures faults == if old(faults) == [] then [] else old(faults)[1..]
      ensures status == if old(faults) != [] && old(faults)[0] != Served then Unavailable else Ok
      ensures status == Ok ==> ListsUsers(items, globalUsers)
      ensures status == Ok ==>
                && (forall g :: g in items <==> g.name in globalUsers && globalUsers[g.name] == g)
                && (forall i, j :: 0 <= i < j < |items| ==> items[i].name != items[j].name)
    {
      var fault := NextFault();
      items := [];
      if fault != Served { return Unavailable, items; }
      items := Range(globalUsers.Values);
      KeyedValuesListOnce(items, globalUsers);
      status := Ok;
    }
  }
}

/** What whole org reconciles guarantee: spaces do not interfere, and
    deletion undoes creation. */
module OrgTheorems {
  import opened Names
  import opened Api
  import opened Grants
  import opened OrgSpec

  // ---- Spaces do not interfere ----

  /** The part of a store that belongs to one namespace. */
  function Slice(s: Store, namespace: string): Store {
    Store(map name | name in s.namespaces && name == namespace :: s.namespaces[name],
          map key | key in s.bindings && key.namespace == namespace :: s.bindings[key])
  }

  function SliceOf(c: Cluster, namespace: string): Cluster {
    c.(store := Slice(c.store, namespace))
  }

  /** The reply to a Create depends on its own namespace only. */
  lemma AddSlice(s: Store, key: Key, binding: RoleBinding)
    ensures var here, all := AddBinding(Slice(s, key.namespace), key, binding), AddBinding(s, key, binding);
            here.status == all.status && here.store == Slice(all.store, key.namespace)
  {
    var here, all := AddBinding(Slice(s, key.namespace), key, binding), AddBinding(s, key, binding);
    assert here.store.bindings == Slice(all.store, key.namespace).bindings;
  }

  lemma AddElsewhere(s: Store, key: Key, binding: RoleBinding, other: string)
    requires other != key.namespace
    ensures Slice(AddBinding(s, key, binding).store, other) == Slice(s, other)
  {
    assert Slice(AddBinding(s, key, binding).store, other).bindings == Slice(s, other).bindings;
  }

  lemma CreateSlice(c: Cluster, r: Request)
    ensures Create(SliceOf(c, r.namespace), r)
            == Answer(SliceOf(Create(c, r).cluster, r.namespace), Create(c, r).status)
    ensures forall other :: other != r.namespace ==> Slice(Create(c, r).cluster.store, other) == Slice(c.store, other)
  {
    AddSlice(c.store, KeyOf(r), BindingOf(r));
    forall other | other != r.namespace ensures Slice(Create(c, r).cluster.store, other) == Slice(c.store, other) {
      AddElsewhere(c.store, KeyOf(r), BindingOf(r), other);
    }
  }

  lemma {:induction false} PassSlice(c: Cluster, requests: seq<Request>, namespace: string)
    requires forall r <- requests :: r.namespace == namespace
    ensures Pass(SliceOf(c, namespace), requests)
            == Answer(SliceOf(Pass(c, requests).cluster, namespace), Pass(c, requests).status)
    ensures forall other :: other != namespace ==>
                              Slice(Pass(c, requests).cluster.store, other) == Slice(c.store, other)
    decreases |requests|
  {
    if requests != [] {
      assert requests[0] in requests;
      CreateSlice(c, requests[0]);
      PassSlice(Create(c, requests[0]).cluster, requests[1..], namespace);
    }
  }

  lemma EnsureSlice(c: Cluster, org: Org, namespace: string)
    ensures var r := EnsureNamespace(c, org, namespace);
            && EnsureNamespace(SliceOf(c, namespace), org, namespace)
               == SpaceResult(SliceOf(r.cluster, namespace), r.outcome)
            && forall other :: other != namespace ==> Slice(r.cluster.store, other) == Slice(c.store, other)
  {
  }

  /** A space reads and writes its own namespace only. */
  lemma SpaceSlice(c: Cluster, org: Org, space: Space, globals: seq<User>)
    ensures var namespace := NamespaceOf(org, space);
            var r := ReconcileSpace(c, org, space, globals);
            && ReconcileSpace(SliceOf(c, namespace), org, space, globals)
               == SpaceResult(SliceOf(r.cluster, namespace), r.outcome)
            && forall other :: other != namespace ==> Slice(r.cluster.store, other) == Slice(c.store, other)
  {
    var namespace := NamespaceOf(org, space);
    SpaceIsOnePass(c, org, space, globals);
    SpaceIsOnePass(SliceOf(c, namespace), org, space, globals);
    WantedInNamespace(org, space, globals);
    EnsureSlice(c, org, namespace);
    PassSlice(EnsureNamespace(c, org, namespace).cluster, Wanted(org, space, globals), namespace);
  }

  /** How many spaces come before the first one on an unknown cluster. */
  function Known(clusters: set<string>, spaces: seq<Space>): (n: nat)
    ensures n <= |spaces|
    ensures forall i :: 0 <= i < n ==> spaces[i].clusterName in clusters
    ensures n < |spaces| ==> spaces[n].clusterName !in clusters
  {
    if spaces == [] || spaces[0].clusterName !in clusters then 0 else 1 + Known(clusters, spaces[1..])
  }

  ghost predicate DistinctSpaces(spaces: seq<Space>) {
    forall i, j :: 0 <= i < j < |spaces| ==>
                     !(spaces[i].clusterName == spaces[j].clusterName && spaces[i].name == spaces[j].name)
  }

  /** One of the first `n` spaces lives in this namespace of this cluster. */
  ghost predicate Targets(org: Org, spaces: seq<Space>, n: nat, cluster: string, namespace: string)
    requires n <= |spaces|
  {
    exists i :: 0 <= i < n && spaces[i].clusterName == cluster && NamespaceOf(org, spaces[i]) == namespace
  }

  /** Space `i` ended in `w'` as reconciling it alone in `w` would have left it. */
  ghost predicate AsAlone(w: World, w': World, org: Org, space: Space, globals: seq<User>)
    requires space.clusterName in w && space.clusterName in w'
  {
    Slice(w'[space.clusterName].store, NamespaceOf(org, space))
    == Slice(ReconcileSpace(w[space.clusterName], org, space, globals).cluster.store, NamespaceOf(org, space))
  }

  lemma DistinctTail(spaces: seq<Space>)
    requires spaces != [] && DistinctSpaces(spaces)
    ensures DistinctSpaces(spaces[1..])
    ensures forall i :: 0 < i < |spaces| ==>
                          spaces[i].clusterName != spaces[0].clusterName || spaces[i].name != spaces[0].name
  {
    var rest := spaces[1..];
    forall i, j | 0 <= i < j < |rest|
      ensures !(rest[i].clusterName == rest[j].clusterName && rest[i].name == rest[j].name)
    {
      assert rest[i] == spaces[i + 1] && rest[j] == spaces[j + 1];
    }
  }

  lemma {:induction false} SpacesEndAsAlone(
    w: World, org: Org, spaces: seq<Space>, globals: seq<User>, last: Outcome)
    requires FaultFree(w) && DistinctSpaces(spaces)
    ensures var w' := ReconcileSpaces(w, org, spaces, globals, last).world;
            var n := Known(w.Keys, spaces);
            && w'.Keys == w.Keys
            && (forall i :: 0 <= i < n ==> AsAlone(w, w', org, spaces[i], globals))
            && (forall name, namespace :: name in w && !Targets(org, spaces, n, name, namespace) ==>
                  Slice(w'[name].store, namespace) == Slice(w[name].store, namespace))
    decreases |spaces|
  {
    var n := Known(w.Keys, spaces);
    if n > 0 {
      var head, rest := spaces[0], spaces[1..];
      var r0 := ReconcileSpace(w[head.clusterName], org, head, globals);
      var w1 := w[head.clusterName := r0.cluster];
      SpaceGrows(w[head.clusterName], org, head, globals);
      SpaceSlice(w[head.clusterName], org, head, globals);
      assert w1.Keys == w.Keys;
      DistinctTail(spaces);
      SpacesEndAsAlone(w1, org, rest, globals, r0.outcome);
      var w' := ReconcileSpaces(w1, org, rest, globals, r0.outcome).world;
      forall i | 0 <= i < n ensures AsAlone(w, w', org, spaces[i], globals) {
        if i == 0 {
          assert [head] + rest == spaces;
          FirstSpaceKept(w1, w', org, head, rest, n - 1);
        } else {
          assert spaces[i] == rest[i - 1] && AsAlone(w1, w', org, rest[i - 1], globals);
          SameSpaceElsewhere(w, w1, org, head, spaces[i], globals);
        }
      }
      TargetsTail(org, spaces, n);
    }
  }

  lemma {:induction false} LastSpaceDecides(
    w: World, org: Org, spaces: seq<Space>, globals: seq<User>, last: Outcome)
    requires FaultFree(w) && DistinctSpaces(spaces)
    ensures var n := Known(w.Keys, spaces);
            ReconcileSpaces(w, org, spaces, globals, last).outcome
            == (if n < |spaces| then Failed(UnknownCluster(spaces[n].clusterName))
                else if n == 0 then last
                else ReconcileSpace(w[spaces[n - 1].clusterName], org, spaces[n - 1], globals).outcome)
    decreases |spaces|
  {
    var n := Known(w.Keys, spaces);
    if n > 0 {
      var head, rest := spaces[0], spaces[1..];
      var r0 := ReconcileSpace(w[head.clusterName], org, head, globals);
      var w1 := w[head.clusterName := r0.cluster];
      SpaceGrows(w[head.clusterName], org, head, globals);
      assert w1.Keys == w.Keys;
      DistinctTail(spaces);
      LastSpaceDecides(w1, org, rest, globals, r0.outcome);
      if n > 1 {
        assert spaces[n - 1] == rest[n - 2];
        SameSpaceElsewhere(w, w1, org, head, spaces[n - 1], globals);
      }
    }
  }

  /** With no faults, each space before the first unknown cluster ends exactly as if it were
      reconciled alone, whatever happens to the others; all other namespaces are untouched; and the
      outcome is that of the last space, unless a cluster is unknown. */
  lemma SpacesDoNotInterfere(w: World, org: Org, globals: seq<User>)
    requires FaultFree(w) && DistinctSpaces(org.spaces)
    ensures var spaces, r := org.spaces, ReconcileSpaces(w, org, org.spaces, globals, Done);
            var n := Known(w.Keys, spaces);
            && r.world.Keys == w.Keys
            && (forall i :: 0 <= i < n ==> AsAlone(w, r.world, org, spaces[i], globals))
            && (forall name, namespace :: name in w && !Targets(org, spaces, n, name, namespace) ==>
                  Slice(r.world[name].store, namespace) == Slice(w[name].store, namespace))
            && (r.outcome.Done?
                <==> n == |spaces|
                     && (n > 0 ==> ReconcileSpace(w[spaces[n - 1].clusterName], org, spaces[n - 1], globals).outcome.Done?))
  {
    SpacesEndAsAlone(w, org, org.spaces, globals, Done);
    SuccessExactly(w, org, globals);
  }

  lemma SuccessExactly(w: World, org: Org, globals: seq<User>)
    requires FaultFree(w) && DistinctSpaces(org.spaces)
    ensures var spaces, n := org.spaces, Known(w.Keys, org.spaces);
            ReconcileSpaces(w, org, spaces, globals, Done).outcome.Done?
            <==> n == |spaces|
                 && (n > 0 ==> ReconcileSpace(w[spaces[n - 1].clusterName], org, spaces[n - 1], globals).outcome.Done?)
  {
    LastSpaceDecides(w, org, org.spaces, globals, Done);
  }

  lemma TargetsTail(org: Org, spaces: seq<Space>, n: nat)
    requires 0 < n <= |spaces|
    ensures forall name, namespace ::
              Targets(org, spaces, n, name, namespace)
              <==> (spaces[0].clusterName == name && NamespaceOf(org, spaces[0]) == namespace)
                   || Targets(org, spaces[1..], n - 1, name, namespace)
  {
    var rest := spaces[1..];
    assert forall i :: 0 < i < n ==> spaces[i] == rest[i - 1];
    forall name, namespace | Targets(org, rest, n - 1, name, namespace)
      ensures Targets(org, spaces, n, name, namespace)
    {
      var i :| 0 <= i < n - 1 && rest[i].clusterName == name && NamespaceOf(org, rest[i]) == namespace;
      assert spaces[i + 1] == rest[i];
    }
  }

  lemma FirstSpaceKept(w1: World, w': World, org: Org, head: Space, rest: seq<Space>, n: nat)
    requires n <= |rest| && head.clusterName in w1 && w'.Keys == w1.Keys
    requires DistinctSpaces([head] + rest)
    requires forall name, namespace :: name in w1 && !Targets(org, rest, n, name, namespace) ==>
                                         Slice(w'[name].store, namespace) == Slice(w1[name].store, namespace)
    ensures Slice(w'[head.clusterName].store, NamespaceOf(org, head))
            == Slice(w1[head.clusterName].store, NamespaceOf(org, head))
  {
    var all := [head] + rest;
    forall i | 0 <= i < n && rest[i].clusterName == head.clusterName
      ensures NamespaceOf(org, rest[i]) != NamespaceOf(org, head)
    {
      assert all[i + 1] == rest[i] && all[0] == head;
      RightPartsDiffer(org.name, head.name, rest[i].name);
    }
  }

  lemma RightPartsDiffer(left: string, right: string, right': string)
    requires right != right'
    ensures Join(left, right) != Join(left, right')
  {
    assert Join(left, right)[|left| + 1..] == right;
    assert Join(left, right')[|left| + 1..] == right';
  }

  /** Reconciling another space first makes no difference. */
  lemma SameSpaceElsewhere(w: World, w1: World, org: Org, head: Space, space: Space, globals: seq<User>)
    requires FaultFree(w) && head.clusterName in w && space.clusterName in w
    requires head.clusterName != space.clusterName || head.name != space.name
    requires w1 == w[head.clusterName := ReconcileSpace(w[head.clusterName], org, head, globals).cluster]
    ensures var namespace := NamespaceOf(org, space);
            var r1, r := ReconcileSpace(w1[space.clusterName], org, space, globals),
                         ReconcileSpace(w[space.clusterName], org, space, globals);
            Slice(r1.cluster.store, namespace) == Slice(r.cluster.store, namespace) && r1.outcome == r.outcome
  {
    if head.clusterName == space.clusterName {
      RightPartsDiffer(org.name, head.name, space.name);
      SpaceGrows(w[head.clusterName], org, head, globals);
      SpaceSlice(w[head.clusterName], org, head, globals);
      SpaceSlice(w1[space.clusterName], org, space, globals);
      SpaceSlice(w[space.clusterName], org, space, globals);
    }
  }

  // ---- Deletion undoes creation ----

  /** The store without the org's labelled namespaces. */
  function Erased(s: Store, name: string): Store {
    RemoveNamespaces(s, ORG_LABEL, name).store
  }

  ghost predicate ErasedTo(w: World, w0: World, name: string) {
    w.Keys == w0.Keys
    && forall cluster <- w :: WellPlaced(w[cluster].store) && Erased(w[cluster].store, name) == w0[cluster].store
  }

  /** Erasure spelled out: exactly the namespaces labelled with the org are gone, and with them the
      bindings inside; the rest is unaltered. */
  lemma ErasedSpelledOut(s: Store, name: string)
    requires WellPlaced(s)
    ensures forall namespace ::
              var doomed := namespace in s.namespaces && "code.cloudfoundry.org/org" in s.namespaces[namespace]
                            && s.namespaces[namespace]["code.cloudfoundry.org/org"] == name;
              && (namespace in Erased(s, name).namespaces <==> namespace in s.namespaces && !doomed)
              && (namespace in Erased(s, name).namespaces ==>
                    Erased(s, name).namespaces[namespace] == s.namespaces[namespace])
    ensures forall key ::
              && (key in Erased(s, name).bindings <==>
                    key in s.bindings && key.namespace in Erased(s, name).namespaces)
              && (key in Erased(s, name).bindings ==> Erased(s, name).bindings[key] == s.bindings[key])
  {
  }

  /** Adding bindings to a namespace that will be erased leaves the rest alone. */
  lemma {:induction false} PassErased(c: Cluster, requests: seq<Request>, namespace: string, name: string)
    requires WellPlaced(c.store) && namespace in Labelled(c.store, ORG_LABEL, name)
    requires forall r <- requests :: r.namespace == namespace
    ensures var s' := Pass(c, requests).cluster.store;
            WellPlaced(s') && Erased(s', name) == Erased(c.store, name)
    decreases |requests|
  {
    if requests != [] {
      assert requests[0] in requests;
      var c1 := Create(c, requests[0]).cluster;
      assert Labelled(c1.store, ORG_LABEL, name) == Labelled(c.store, ORG_LABEL, name);
      assert Erased(c1.store, name) == Erased(c.store, name);
      PassErased(c1, requests[1..], namespace, name);
    }
  }

  lemma SpaceErased(c: Cluster, org: Org, space: Space, globals: seq<User>)
    requires WellPlaced(c.store) && NamespaceOf(org, space) !in Erased(c.store, org.name).namespaces
    ensures var s' := ReconcileSpace(c, org, space, globals).cluster.store;
            WellPlaced(s') && Erased(s', org.name) == Erased(c.store, org.name)
  {
    var namespace := NamespaceOf(org, space);
    SpaceIsOnePass(c, org, space, globals);
    WantedInNamespace(org, space, globals);
    var created := EnsureNamespace(c, org, namespace);
    EnsureErased(c, org, namespace);
    if created.outcome.Done? {
      PassErased(created.cluster, Wanted(org, space, globals), namespace, org.name);
    }
  }

  lemma EnsureErased(c: Cluster, org: Org, namespace: string)
    requires WellPlaced(c.store) && namespace !in Erased(c.store, org.name).namespaces
    ensures var r := EnsureNamespace(c, org, namespace);
            && WellPlaced(r.cluster.store) && Erased(r.cluster.store, org.name) == Erased(c.store, org.name)
            && (r.outcome.Done? ==> namespace in Labelled(r.cluster.store, ORG_LABEL, org.name))
  {
    var s' := EnsureNamespace(c, org, namespace).cluster.store;
    if s' != c.store {
      assert Labelled(s', ORG_LABEL, org.name) == Labelled(c.store, ORG_LABEL, org.name) + {namespace};
      assert Erased(s', org.name).namespaces == Erased(c.store, org.name).namespaces;
      assert Erased(s', org.name).bindings == Erased(c.store, org.name).bindings;
    }
  }

  lemma {:induction false} SpacesErased(
    w: World, w0: World, org: Org, spaces: seq<Space>, globals: seq<User>, last: Outcome)
    requires ErasedTo(w, w0, org.name)
    requires forall space <- spaces :: space.clusterName in w0 ==>
                                         NamespaceOf(org, space) !in w0[space.clusterName].store.namespaces
    ensures ErasedTo(ReconcileSpaces(w, org, spaces, globals, last).world, w0, org.name)
    decreases |spaces|
  {
    if spaces != [] && spaces[0].clusterName in w {
      assert spaces[0] in spaces;
      var r := ReconcileSpace(w[spaces[0].clusterName], org, spaces[0], globals);
      SpaceErased(w[spaces[0].clusterName], org, spaces[0], globals);
      SpacesErased(w[spaces[0].clusterName := r.cluster], w0, org, spaces[1..], globals, r.outcome);
    }
  }

  /** Erasing some of the org's namespaces first makes no difference. */
  lemma EraseInParts(s: Store, name: string, reached: set<string>)
    ensures var part := Without(s, Labelled(s, ORG_LABEL, name) * reached);
            Erased(part, name) == Erased(s, name) && (WellPlaced(s) ==> WellPlaced(part))
  {
    var doomed := Labelled(s, ORG_LABEL, name);
    var part := Without(s, doomed * reached);
    assert Labelled(part, ORG_LABEL, name) == doomed - reached;
    assert Erased(part, name).namespaces == Erased(s, name).namespaces;
    assert Erased(part, name).bindings == Erased(s, name).bindings;
  }

  lemma EraseTwice(s: Store, name: string)
    ensures Erased(Erased(s, name), name) == Erased(s, name)
    ensures WellPlaced(s) ==> WellPlaced(Erased(s, name))
  {
    var doomed := Labelled(s, ORG_LABEL, name);
    assert doomed * doomed == doomed;
    EraseInParts(s, name, doomed);
  }

  lemma NothingToErase(s: Store, name: string)
    requires Erased(s, name) == s
    ensures Labelled(s, ORG_LABEL, name) == {}
  {
    assert Labelled(s, ORG_LABEL, name) <= s.namespaces.Keys;
  }

  /** One call under any fault keeps what erasure would leave, and success is erasure. */
  lemma EraseCall(c: Cluster, name: string)
    requires WellPlaced(c.store)
    ensures var a := Erase(c, ORG_LABEL, name);
            && WellPlaced(a.cluster.store) && Erased(a.cluster.store, name) == Erased(c.store, name)
            && (a.status == Ok ==> a.cluster.store == Erased(c.store, name))
            && (Erased(c.store, name) == c.store ==> a.cluster.store == c.store)
  {
    var fault := NextFault(c.faults);
    if fault.Interrupted? {
      EraseInParts(c.store, name, fault.reached);
      if Erased(c.store, name) == c.store {
        NothingToErase(c.store, name);
        assert Without(c.store, {}) == c.store;
        assert Labelled(c.store, ORG_LABEL, name) * fault.reached == {};
      }
    } else {
      EraseTwice(c.store, name);
    }
  }

  /** A deletion attempt keeps what erasure would leave; each cluster it gets past is erased. */
  lemma {:induction false} DeleteOrgErases(w: World, w0: World, order: seq<string>, name: string)
    requires ErasedTo(w, w0, name) && forall cluster <- order :: cluster in w
    ensures var r := DeleteOrg(w, order, name);
            && ErasedTo(r.world, w0, name)
            && (forall cluster <- w :: w[cluster].store == w0[cluster].store ==>
                                         r.world[cluster].store == w0[cluster].store)
            && (r.outcome.Done? ==> forall cluster <- order :: r.world[cluster].store == w0[cluster].store)
    decreases |order|
  {
    if order != [] {
      assert order[0] in order;
      var a := Erase(w[order[0]], ORG_LABEL, name);
      EraseCall(w[order[0]], name);
      var w1 := w[order[0] := a.cluster];
      assert ErasedTo(w1, w0, name);
      if a.status == Ok {
        DeleteOrgErases(w1, w0, order[1..], name);
        assert forall cluster <- order :: cluster == order[0] || cluster in order[1..];
      }
    }
  }

  /** The deletion ended with an error in turn `k`: the clusters before it are erased, those after it are
      as they were. */
  ghost predicate DeletionEndedAt(w: World, r: WorldResult, order: seq<string>, name: string, k: int) {
    && 0 <= k < |order| && (forall cluster <- order :: cluster in w && cluster in r.world)
    && (forall j :: 0 <= j < k ==> r.world[order[j]].store == Erased(w[order[j]].store, name))
    && r.world[order[k]] == Erase(w[order[k]], ORG_LABEL, name).cluster
    && Erase(w[order[k]], ORG_LABEL, name).status != Ok
    && (forall j :: k < j < |order| ==> r.world[order[j]] == w[order[j]])
  }

  ghost predicate Distinct(order: seq<string>) {
    forall i, j :: 0 <= i < j < |order| ==> order[i] != order[j]
  }

  lemma DeletionEndedLater(w: World, r: WorldResult, order: seq<string>, name: string, k: int)
    requires order != [] && Distinct(order) && order[0] in w && order[0] in r.world
    requires r.world[order[0]].store == Erased(w[order[0]].store, name)
    requires DeletionEndedAt(w[order[0] := r.world[order[0]]], r, order[1..], name, k)
    ensures DeletionEndedAt(w, r, order, name, k + 1)
  {
    var rest := order[1..];
    assert forall j :: 0 < j < |order| ==> order[j] == rest[j - 1] && rest[j - 1] in rest;
    assert forall cluster <- order :: cluster == order[0] || cluster in rest;
  }

  lemma DeletionTouches(w: World, order: seq<string>, name: string)
    requires forall cluster <- order :: cluster in w
    ensures var r := DeleteOrg(w, order, name);
            && r.world.Keys == w.Keys
            && (forall cluster <- w :: cluster !in order ==> r.world[cluster] == w[cluster])
    decreases |order|
  {
    if order != [] {
      assert order[0] in order;
      var a := Erase(w[order[0]], ORG_LABEL, name);
      if a.status == Ok {
        DeletionTouches(w[order[0] := a.cluster], order[1..], name);
      }
    }
  }

  /** The deletion loop visits the clusters in turn and stops at its first error, under any faults. */
  lemma {:induction false} FirstErrorEndsDeletion(w: World, order: seq<string>, name: string)
    requires (forall cluster <- order :: cluster in w) && Distinct(order)
    ensures var r := DeleteOrg(w, order, name);
            && r.world.Keys == w.Keys
            && (r.outcome.Done? ==> forall cluster <- order :: r.world[cluster].store == Erased(w[cluster].store, name))
            && (r.outcome.Failed? ==> exists k :: DeletionEndedAt(w, r, order, name, k))
    decreases |order|
  {
    if order != [] {
      var head, rest := order[0], order[1..];
      assert head in order && forall cluster <- order :: cluster == head || cluster in rest;
      assert forall j :: 0 < j < |order| ==> order[j] == rest[j - 1];
      var a, r := Erase(w[head], ORG_LABEL, name), DeleteOrg(w, order, name);
      var w1 := w[head := a.cluster];
      ErasureIsDone(w[head], name);
      if a.status != Ok {
        assert DeletionEndedAt(w, r, order, name, 0);
      } else {
        assert head !in rest && Distinct(rest);
        FirstErrorEndsDeletion(w1, rest, name);
        DeletionTouches(w1, rest, name);
        if r.outcome.Failed? {
          var k :| DeletionEndedAt(w1, r, rest, name, k);
          DeletionEndedLater(w, r, order, name, k);
        }
      }
    }
  }

  lemma ErasureIsDone(c: Cluster, name: string)
    ensures var a := Erase(c, ORG_LABEL, name); a.status == Ok ==> a.cluster.store == Erased(c.store, name)
  {
  }

  /** Where a server refuses DeleteAllOf over namespaces, as one that does not offer the call does, a
      deletion attempt changes nothing and fails at the first cluster. */
  lemma RefusedDeletionChangesNothing(w: World, order: seq<string>, name: string)
    requires order != [] && forall cluster <- order :: cluster in w
    requires NextFault(w[order[0]].faults) == Refused
    ensures var r := DeleteOrg(w, order, name);
            SameStores(w, r.world) && r.outcome == Failed(DeleteFailed(Unavailable))
  {
  }

  /** Repeated deletion attempts, each over the clusters in its own order. */
  function DeleteOrgRepeatedly(w: World, orders: seq<seq<string>>, name: string): WorldResult
    requires forall order <- orders :: Enumerates(order, w.Keys)
    decreases |orders|
  {
    if orders == [] then WorldResult(w, Done)
    else
      assert orders[0] in orders && Enumerates(orders[0], w.Keys);
      var r := DeleteOrg(w, orders[0], name);
      DeleteOrgKeys(w, orders[0], name);
      if |orders| == 1 then r else DeleteOrgRepeatedly(r.world, orders[1..], name)
  }

  /** Each attempt starts from what the one before left, and the last one's outcome counts. */
  lemma {:induction false} LastAttemptDecides(w: World, orders: seq<seq<string>>, last: seq<string>, name: string)
    requires orders != [] && Enumerates(last, w.Keys) && forall order <- orders :: Enumerates(order, w.Keys)
    ensures DeleteOrgRepeatedly(w, orders, name).world.Keys == w.Keys
    ensures DeleteOrgRepeatedly(w, orders + [last], name) == DeleteOrg(DeleteOrgRepeatedly(w, orders, name).world, last, name)
    decreases |orders|
  {
    assert orders[0] in orders;
    DeleteOrgKeys(w, orders[0], name);
    var w1 := DeleteOrg(w, orders[0], name).world;
    assert (orders + [last])[1..] == orders[1..] + [last];
    if |orders| == 1 {
      assert orders[1..] + [last] == [last];
    } else {
      LastAttemptDecides(w1, orders[1..], last, name);
    }
  }

  lemma {:induction false} DeleteOrgKeys(w: World, order: seq<string>, name: string)
    requires forall cluster <- order :: cluster in w
    ensures DeleteOrg(w, order, name).world.Keys == w.Keys
    decreases |order|
  {
    if order != [] {
      var c := w[order[0]];
      var a := Erase(c, ORG_LABEL, name);
      if a.status == Ok {
        DeleteOrgKeys(w[order[0] := a.cluster], order[1..], name);
      }
    }
  }

  /** Round trip: if no namespace carried the org's label and none of its target namespaces existed,
      then a reconcile with any outcome under any faults, followed by deletion attempts of which the
      last completes, restores every cluster exactly. */
  lemma OrgRoundTrip(w: World, org: Org, globals: seq<User>, orders: seq<seq<string>>)
    requires forall cluster <- w ::
               && WellPlaced(w[cluster].store)
               && forall name <- w[cluster].store.namespaces ::
                    ("code.cloudfoundry.org/org" in w[cluster].store.namespaces[name] ==>
                       w[cluster].store.namespaces[name]["code.cloudfoundry.org/org"] != org.name)
    requires forall space <- org.spaces :: space.clusterName in w ==>
                                             org.name + "-" + space.name !in w[space.clusterName].store.namespaces
    requires orders != [] && forall order <- orders :: Enumerates(order, w.Keys)
    ensures var w1 := ReconcileSpaces(w, org, org.spaces, globals, Done).world;
            w1.Keys == w.Keys
            && var r := DeleteOrgRepeatedly(w1, orders, org.name);
            r.outcome.Done? ==> r.world.Keys == w.Keys && forall cluster <- w :: r.world[cluster].store == w[cluster].store
  {
    forall cluster | cluster in w ensures Erased(w[cluster].store, org.name) == w[cluster].store {
      assert Labelled(w[cluster].store, ORG_LABEL, org.name) == {};
    }
    SpacesErased(w, w, org, org.spaces, globals, Done);
    var w1 := ReconcileSpaces(w, org, org.spaces, globals, Done).world;
    AttemptsErase(w1, w, orders, org.name);
  }

  lemma {:induction false} AttemptsErase(w1: World, w0: World, orders: seq<seq<string>>, name: string)
    requires ErasedTo(w1, w0, name)
    requires orders != [] && forall order <- orders :: Enumerates(order, w0.Keys)
    ensures var r := DeleteOrgRepeatedly(w1, orders, name);
            r.outcome.Done? ==> SameStores(w0, r.world)
    decreases |orders|
  {
    assert orders[0] in orders;
    DeleteOrgErases(w1, w0, orders[0], name);
    if |orders| > 1 {
      AttemptsErase(DeleteOrg(w1, orders[0], name).world, w0, orders[1..], name);
    }
  }

  // ---- Names that collide ----

  /** Wherever one org name continues another with a dash, the two orgs are not separate: some space
      of each maps to the same namespace, so the second org's bindings land in a namespace that
      carries the first org's label, and deleting the first org takes them with it. */
  lemma ContinuedNamesShare(name: string, rest: string, spaceName: string, cluster: string, user: string, role: string)
    ensures var a := Org(name, [], [Space(Join(rest, spaceName), cluster, [])]);
            var b := Org(Join(name, rest), [], [Space(spaceName, cluster, [User(user, [role])])]);
            var w1 := ReconcileSpaces(map[cluster := Cluster(Store(map[], map[]), [])], a, a.spaces, [], Done).world;
            var w2 := ReconcileSpaces(w1, b, b.spaces, [], Done);
            && w2.outcome.Done? && cluster in w2.world
            && w2.world[cluster].store.bindings.Keys == {Key(NamespaceOf(b, b.spaces[0]), Join(user, role))}
            && Erased(w2.world[cluster].store, a.name).bindings == map[]
  {
    var a := Org(name, [], [Space(Join(rest, spaceName), cluster, [])]);
    var b := Org(Join(name, rest), [], [Space(spaceName, cluster, [User(user, [role])])]);
    var empty := Cluster(Store(map[], map[]), []);
    var namespace := NamespaceOf(a, a.spaces[0]);
    assert namespace == NamespaceOf(b, b.spaces[0]);
    FirstOrgAlone(empty, a, namespace);
    var c1 := ReconcileSpace(empty, a, a.spaces[0], []).cluster;
    SecondOrgJoins(c1, b, namespace, user, role);
    var c2 := ReconcileSpace(c1, b, b.spaces[0], []).cluster;
    assert a.spaces[1..] == [] && b.spaces[1..] == [];
    assert ReconcileSpaces(map[cluster := empty], a, a.spaces, [], Done).world == map[cluster := c1];
    assert ReconcileSpaces(map[cluster := c1], b, b.spaces, [], Done).world == map[cluster := c2];
    assert namespace in Labelled(c2.store, ORG_LABEL, a.name);
  }

  lemma FirstOrgAlone(c: Cluster, a: Org, namespace: string)
    requires c == Cluster(Store(map[], map[]), []) && a.users == [] && |a.spaces| == 1 && a.spaces[0].users == []
    requires namespace == NamespaceOf(a, a.spaces[0])
    ensures ReconcileSpace(c, a, a.spaces[0], [])
            == SpaceResult(Cluster(Store(map[namespace := OrgLabels(a)], map[]), []), Done)
  {
    SpaceIsOnePass(c, a, a.spaces[0], []);
  }

  lemma SecondOrgJoins(c: Cluster, b: Org, namespace: string, user: string, role: string)
    requires c.faults == [] && namespace in c.store.namespaces && c.store.bindings == map[]
    requires b.users == [] && |b.spaces| == 1 && b.spaces[0].users == [User(user, [role])]
    requires namespace == NamespaceOf(b, b.spaces[0])
    ensures var want := Request(namespace, user, role, OTHER_LEVEL);
            ReconcileSpace(c, b, b.spaces[0], [])
            == SpaceResult(Cluster(c.store.(bindings := map[KeyOf(want) := BindingOf(want)]), []), Done)
  {
    var want := Request(namespace, user, role, OTHER_LEVEL);
    SpaceIsOnePass(c, b, b.spaces[0], []);
    assert [User(user, [role])][1..] == [] && [role][1..] == [] && [want][1..] == [];
    assert RoleRequests(user, [role], OTHER_LEVEL, namespace) == [want];
    assert Flatten([User(user, [role])], OTHER_LEVEL, namespace) == [want];
    assert Wanted(b, b.spaces[0], []) == [want];
    PassHead(c, [want]);
  }
}

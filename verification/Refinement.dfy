/** The call-by-call workers and the specification functions describe the same code: a worker left to
    itself does to the clusters exactly what the function says, fault by fault. */
module Refinement {
  import opened Api
  import opened Grants
  import opened OrgSpec
  import opened GlobalUserSpec
  import GlobalUserTheorems
  import opened Workers

  function StoresOf(w: World): map<string, Store> {
    map name | name in w :: w[name].store
  }

  lemma {:induction false} RunAppend(s: State, first: seq<Action>, second: seq<Action>)
    ensures Run(s, first + second) == Run(Run(s, first), second)
    decreases |first|
  {
    if first == [] {
      assert first + second == second;
    } else {
      assert (first + second)[1..] == first[1..] + second;
      RunAppend(Step(s, first[0]), first[1..], second);
    }
  }

  /** Same specs and same other worker. */
  ghost predicate OnlyOrgMoved(s: State, s': State) {
    s'.orgs == s.orgs && s'.users == s.users && s'.user == s.user
  }

  ghost predicate OnlyUserMoved(s: State, s': State) {
    s'.orgs == s.orgs && s'.users == s.users && s'.org == s.org
  }

  // ---- Org ----

  function PassScript(c: Cluster, requests: seq<Request>): seq<Action>
    decreases |requests|
  {
    if requests == [] then [OrgCall(Served)]
    else
      var a := Create(c, requests[0]);
      [OrgCall(NextFault(c.faults))] + if a.status == Ok then PassScript(a.cluster, requests[1..]) else []
  }

  lemma {:induction false} PassRuns(s: State, c: Cluster, requests: seq<Request>)
    requires s.org.OrgGranting? && s.org.todo == requests && s.org.cluster in s.stores
    requires s.stores[s.org.cluster] == c.store
    ensures var s' := Run(s, PassScript(c, requests));
            && s'.org == OrgLooping(s.org.org, s.org.globals, s.org.spaces) && OnlyOrgMoved(s, s')
            && s'.stores == s.stores[s.org.cluster := Pass(c, requests).cluster.store]
    decreases |requests|
  {
    if requests == [] {
      OneStep(s, OrgCall(Served));
      assert s.stores == s.stores[s.org.cluster := c.store];
    } else {
      var a := Create(c, requests[0]);
      var call := OrgCall(NextFault(c.faults));
      OneStep(s, call);
      var s1 := Step(s, call);
      assert s1.stores == s.stores[s.org.cluster := a.cluster.store];
      if a.status == Ok {
        PassRuns(s1, a.cluster, requests[1..]);
        RunAppend(s, [call], PassScript(a.cluster, requests[1..]));
      } else {
        assert PassScript(c, requests) == [call];
      }
    }
  }

  lemma OneStep(s: State, a: Action)
    ensures Run(s, [a]) == Step(s, a)
  {
    assert [a][1..] == [];
  }

  function SpaceScript(c: Cluster, org: Org, space: Space, globals: seq<User>): seq<Action> {
    var ensured := EnsureNamespace(c, org, NamespaceOf(org, space));
    [OrgCall(NextFault(c.faults))]
    + if ensured.outcome.Failed? then [] else PassScript(ensured.cluster, Wanted(org, space, globals))
  }

  lemma SpaceRuns(s: State, c: Cluster)
    requires s.org.OrgLooping? && s.org.spaces != [] && s.org.spaces[0].clusterName in s.stores
    requires s.stores[s.org.spaces[0].clusterName] == c.store
    ensures var org, space, globals := s.org.org, s.org.spaces[0], s.org.globals;
            var s' := Run(s, SpaceScript(c, org, space, globals));
            && s'.org == OrgLooping(org, globals, s.org.spaces[1..]) && OnlyOrgMoved(s, s')
            && s'.stores == s.stores[space.clusterName := ReconcileSpace(c, org, space, globals).cluster.store]
  {
    var org, space, globals := s.org.org, s.org.spaces[0], s.org.globals;
    var ensured := EnsureNamespace(c, org, NamespaceOf(org, space));
    var call := OrgCall(NextFault(c.faults));
    SpaceIsOnePass(c, org, space, globals);
    OneStep(s, call);
    var s1 := Step(s, call);
    assert s1.stores == s.stores[space.clusterName := ensured.cluster.store];
    if ensured.outcome.Done? {
      var rest := PassScript(ensured.cluster, Wanted(org, space, globals));
      PassRuns(s1, ensured.cluster, Wanted(org, space, globals));
      RunAppend(s, [call], rest);
    } else {
      assert SpaceScript(c, org, space, globals) == [call];
    }
  }

  function OrgScript(w: World, org: Org, spaces: seq<Space>, globals: seq<User>): seq<Action>
    decreases |spaces|
  {
    if spaces == [] || spaces[0].clusterName !in w then [OrgCall(Served)]
    else
      var c := w[spaces[0].clusterName];
      SpaceScript(c, org, spaces[0], globals)
      + OrgScript(w[spaces[0].clusterName := ReconcileSpace(c, org, spaces[0], globals).cluster],
                  org, spaces[1..], globals)
  }

  /** The Org worker alone refines the loop over the spaces: same faults, same clusters at the end. */
  lemma {:induction false} OrgWorkerRefines(s: State, w: World, last: Outcome)
    requires s.org.OrgLooping? && s.stores == StoresOf(w)
    ensures var org, spaces, globals := s.org.org, s.org.spaces, s.org.globals;
            var s' := Run(s, OrgScript(w, org, spaces, globals));
            && s'.org == OrgIdle && OnlyOrgMoved(s, s')
            && s'.stores == StoresOf(ReconcileSpaces(w, org, spaces, globals, last).world)
    decreases |s.org.spaces|
  {
    var org, spaces, globals := s.org.org, s.org.spaces, s.org.globals;
    if spaces == [] || spaces[0].clusterName !in w {
      OneStep(s, OrgCall(Served));
    } else {
      var cluster := spaces[0].clusterName;
      var r := ReconcileSpace(w[cluster], org, spaces[0], globals);
      var script := SpaceScript(w[cluster], org, spaces[0], globals);
      SpaceRuns(s, w[cluster]);
      var s1, w1 := Run(s, script), w[cluster := r.cluster];
      assert s1.stores == StoresOf(w1);
      OrgWorkerRefines(s1, w1, r.outcome);
      RunAppend(s, script, OrgScript(w1, org, spaces[1..], globals));
    }
  }

  // ---- GlobalUser ----

  function GrantScript(c: Cluster, requests: seq<Request>): seq<Action>
    decreases |requests|
  {
    if requests == [] then [UserCall(Served)]
    else
      var a := Create(c, requests[0]);
      [UserCall(NextFault(c.faults))] + if a.status == Ok then GrantScript(a.cluster, requests[1..]) else []
  }

  lemma {:induction false} GrantRuns(s: State, c: Cluster, requests: seq<Request>)
    requires s.user.UserGranting? && s.user.todo == requests && s.user.cluster in s.stores
    requires s.stores[s.user.cluster] == c.store
    ensures var s' := Run(s, GrantScript(c, requests));
            var a := Pass(c, requests);
            && s'.user == (if a.status == Ok then UserLooping(s.user.user, s.user.clusters) else UserIdle)
            && OnlyUserMoved(s, s')
            && s'.stores == s.stores[s.user.cluster := a.cluster.store]
    decreases |requests|
  {
    if requests == [] {
      OneStep(s, UserCall(Served));
      assert s.stores == s.stores[s.user.cluster := c.store];
    } else {
      var a := Create(c, requests[0]);
      var call := UserCall(NextFault(c.faults));
      OneStep(s, call);
      var s1 := Step(s, call);
      assert s1.stores == s.stores[s.user.cluster := a.cluster.store];
      if a.status == Ok {
        GrantRuns(s1, a.cluster, requests[1..]);
        RunAppend(s, [call], GrantScript(a.cluster, requests[1..]));
      } else {
        assert GrantScript(c, requests) == [call];
      }
    }
  }

  /** A failed List ends the reconcile. */
  function VisitScript(c: Cluster, user: GlobalUser, visit: Visit): seq<Action> {
    var listed := List(c);
    if listed.status != Ok then [UserStop]
    else [UserList(visit.cluster, visit.listing)] + GrantScript(listed.cluster, UserRequests(user, visit.listing))
  }

  lemma VisitRuns(s: State, c: Cluster, visit: Visit)
    requires s.user.UserLooping? && visit.cluster in s.user.clusters && visit.cluster in s.stores
    requires s.stores[visit.cluster] == c.store && Enumerates(visit.listing, CfNamespaces(c.store))
    ensures var s' := Run(s, VisitScript(c, s.user.user, visit));
            var r := Grant(c, s.user.user, visit.listing);
            && s'.user == (if r.outcome.Done? then UserLooping(s.user.user, s.user.clusters - {visit.cluster}) else UserIdle)
            && OnlyUserMoved(s, s')
            && s'.stores == s.stores[visit.cluster := r.cluster.store]
  {
    var listed := List(c);
    if listed.status != Ok {
      OneStep(s, UserStop);
      assert s.stores == s.stores[visit.cluster := c.store];
    } else {
      var list := UserList(visit.cluster, visit.listing);
      OneStep(s, list);
      var s1 := Step(s, list);
      var requests := UserRequests(s.user.user, visit.listing);
      GrantRuns(s1, listed.cluster, requests);
      RunAppend(s, [list], GrantScript(listed.cluster, requests));
    }
  }

  function UserScript(w: World, user: GlobalUser, visits: seq<Visit>): seq<Action>
    requires forall v <- visits :: v.cluster in w
    decreases |visits|
  {
    if visits == [] then [UserCall(Served)]
    else
      assert visits[0] in visits;
      var r := Grant(w[visits[0].cluster], user, visits[0].listing);
      VisitScript(w[visits[0].cluster], user, visits[0])
      + if r.outcome.Failed? then [] else UserScript(w[visits[0].cluster := r.cluster], user, visits[1..])
  }

  /** The visits still to come are those of the worker's remaining clusters, with correct listings. */
  ghost predicate VisitsAhead(s: State, w: World, visits: seq<Visit>) {
    && s.user.UserLooping? && s.stores == StoresOf(w)
    && DistinctVisits(visits) && CorrectListings(w, visits) && s.user.clusters == Visited(visits)
  }

  lemma VisitsAheadTail(s: State, s1: State, w: World, w1: World, visits: seq<Visit>)
    requires visits != [] && VisitsAhead(s, w, visits) && s1.stores == StoresOf(w1)
    requires w1.Keys == w.Keys && forall name <- w :: name != visits[0].cluster ==> w1[name] == w[name]
    requires s1.user == UserLooping(s.user.user, s.user.clusters - {visits[0].cluster})
    ensures VisitsAhead(s1, w1, visits[1..])
  {
    var rest := visits[1..];
    forall v | v in rest ensures v in visits && v.cluster != visits[0].cluster {
      var i :| 0 <= i < |rest| && rest[i] == v;
      assert visits[i + 1] == v;
    }
    assert forall v <- visits :: v == visits[0] || v in rest;
  }

  /** The GlobalUser worker alone refines the loop over the clusters. */
  lemma {:induction false} UserWorkerRefines(s: State, w: World, visits: seq<Visit>)
    requires VisitsAhead(s, w, visits)
    ensures var s' := Run(s, UserScript(w, s.user.user, visits));
            && s'.user == UserIdle && OnlyUserMoved(s, s')
            && s'.stores == StoresOf(ReconcileUser(w, s.user.user, visits).world)
    decreases |visits|
  {
    var user := s.user.user;
    if visits == [] {
      OneStep(s, UserCall(Served));
    } else {
      var head := visits[0];
      assert head in visits;
      var r := Grant(w[head.cluster], user, head.listing);
      var script := VisitScript(w[head.cluster], user, head);
      VisitRuns(s, w[head.cluster], head);
      var s1, w1 := Run(s, script), w[head.cluster := r.cluster];
      assert s1.stores == StoresOf(w1);
      if r.outcome.Done? {
        VisitsAheadTail(s, s1, w, w1, visits);
        UserWorkerRefines(s1, w1, visits[1..]);
        RunAppend(s, script, UserScript(w1, user, visits[1..]));
      } else {
        assert UserScript(w, user, visits) == script;
      }
    }
  }

  // ---- Deletion ----

  function OrgDeletionScript(w: World, order: seq<string>, name: string): seq<Action>
    requires forall cluster <- order :: cluster in w
    decreases |order|
  {
    if order == [] then [OrgCall(Served)]
    else
      var c := w[order[0]];
      var a := Erase(c, ORG_LABEL, name);
      [OrgErase(order[0], NextFault(c.faults))]
      + if a.status != Ok then [] else OrgDeletionScript(w[order[0] := a.cluster], order[1..], name)
  }

  /** The Org worker alone refines the deletion loop. */
  lemma {:induction false} OrgDeletionRefines(s: State, w: World, order: seq<string>)
    requires s.org.OrgErasing? && s.stores == StoresOf(w)
    requires Enumerates(order, s.org.clusters) && s.org.clusters <= w.Keys
    ensures var s' := Run(s, OrgDeletionScript(w, order, s.org.name));
            && s'.org == OrgIdle && OnlyOrgMoved(s, s')
            && s'.stores == StoresOf(DeleteOrg(w, order, s.org.name).world)
    decreases |order|
  {
    var name := s.org.name;
    if order == [] {
      OneStep(s, OrgCall(Served));
    } else {
      assert order[0] in order;
      var c := w[order[0]];
      var a := Erase(c, ORG_LABEL, name);
      var erase := OrgErase(order[0], NextFault(c.faults));
      OneStep(s, erase);
      var s1, w1 := Step(s, erase), w[order[0] := a.cluster];
      assert s1.stores == StoresOf(w1);
      if a.status == Ok {
        EnumeratesTail(order, s.org.clusters);
        OrgDeletionRefines(s1, w1, order[1..]);
        RunAppend(s, [erase], OrgDeletionScript(w1, order[1..], name));
      } else {
        assert OrgDeletionScript(w, order, name) == [erase];
      }
    }
  }

  lemma EnumeratesTail<T(!new)>(xs: seq<T>, s: set<T>)
    requires xs != [] && Enumerates(xs, s)
    ensures Enumerates(xs[1..], s - {xs[0]})
  {
    assert forall x :: x in xs <==> x == xs[0] || x in xs[1..];
  }

  function DeleteScript(c: Cluster, keys: seq<Key>): seq<Action>
    decreases |keys|
  {
    if keys == [] then [UserCall(Served)]
    else
      var a := Call(c, RemoveBinding(c.store, keys[0]));
      [UserCall(NextFault(c.faults))] + if a.status == Ok then DeleteScript(a.cluster, keys[1..]) else []
  }

  lemma {:induction false} DeleteRuns(s: State, c: Cluster, keys: seq<Key>)
    requires s.user.UserDeleting? && s.user.keys == keys && s.user.cluster in s.stores
    requires s.stores[s.user.cluster] == c.store
    ensures var s' := Run(s, DeleteScript(c, keys));
            var a := DeleteKeys(c, keys);
            && s'.user == (if a.status == Ok then UserPurging(s.user.name, s.user.clusters) else UserIdle)
            && OnlyUserMoved(s, s')
            && s'.stores == s.stores[s.user.cluster := a.cluster.store]
    decreases |keys|
  {
    if keys == [] {
      OneStep(s, UserCall(Served));
      assert s.stores == s.stores[s.user.cluster := c.store];
    } else {
      var a := Call(c, RemoveBinding(c.store, keys[0]));
      var call := UserCall(NextFault(c.faults));
      OneStep(s, call);
      var s1 := Step(s, call);
      assert s1.stores == s.stores[s.user.cluster := a.cluster.store];
      if a.status == Ok {
        DeleteRuns(s1, a.cluster, keys[1..]);
        RunAppend(s, [call], DeleteScript(a.cluster, keys[1..]));
      } else {
        assert DeleteScript(c, keys) == [call];
      }
    }
  }

  function SweepScript(c: Cluster, sweep: Sweep): seq<Action> {
    var listed := List(c);
    if listed.status != Ok then [UserStop]
    else [UserListBindings(sweep.cluster, sweep.listing)] + DeleteScript(listed.cluster, sweep.listing)
  }

  lemma SweepRuns(s: State, c: Cluster, sweep: Sweep)
    requires s.user.UserPurging? && sweep.cluster in s.user.clusters && sweep.cluster in s.stores
    requires s.stores[sweep.cluster] == c.store && Enumerates(sweep.listing, Matches(c.store, s.user.name))
    ensures var s' := Run(s, SweepScript(c, sweep));
            var r := Purge(c, sweep.listing);
            && s'.user == (if r.outcome.Done? then UserPurging(s.user.name, s.user.clusters - {sweep.cluster}) else UserIdle)
            && OnlyUserMoved(s, s')
            && s'.stores == s.stores[sweep.cluster := r.cluster.store]
  {
    var listed := List(c);
    if listed.status != Ok {
      OneStep(s, UserStop);
      assert s.stores == s.stores[sweep.cluster := c.store];
    } else {
      var list := UserListBindings(sweep.cluster, sweep.listing);
      OneStep(s, list);
      DeleteRuns(Step(s, list), listed.cluster, sweep.listing);
      RunAppend(s, [list], DeleteScript(listed.cluster, sweep.listing));
    }
  }

  function UserDeletionScript(w: World, sweeps: seq<Sweep>): seq<Action>
    requires forall v <- sweeps :: v.cluster in w
    decreases |sweeps|
  {
    if sweeps == [] then [UserCall(Served)]
    else
      assert sweeps[0] in sweeps;
      var r := Purge(w[sweeps[0].cluster], sweeps[0].listing);
      SweepScript(w[sweeps[0].cluster], sweeps[0])
      + if r.outcome.Failed? then [] else UserDeletionScript(w[sweeps[0].cluster := r.cluster], sweeps[1..])
  }

  /** The sweeps still to come are those of the worker's remaining clusters, with correct listings. */
  ghost predicate SweepsAhead(s: State, w: World, sweeps: seq<Sweep>) {
    && s.user.UserPurging? && s.stores == StoresOf(w)
    && DistinctSweeps(sweeps) && CorrectSweeps(w, sweeps, s.user.name) && s.user.clusters == Swept(sweeps)
  }

  lemma SweepsAheadTail(s: State, s1: State, w: World, w1: World, sweeps: seq<Sweep>)
    requires sweeps != [] && SweepsAhead(s, w, sweeps) && s1.stores == StoresOf(w1)
    requires w1.Keys == w.Keys && forall name <- w :: name != sweeps[0].cluster ==> w1[name] == w[name]
    requires s1.user == UserPurging(s.user.name, s.user.clusters - {sweeps[0].cluster})
    ensures SweepsAhead(s1, w1, sweeps[1..])
  {
    var rest := sweeps[1..];
    forall v | v in rest ensures v in sweeps && v.cluster != sweeps[0].cluster {
      var i :| 0 <= i < |rest| && rest[i] == v;
      assert sweeps[i + 1] == v;
    }
    assert forall v <- sweeps :: v == sweeps[0] || v in rest;
  }

  /** The GlobalUser worker alone refines the deletion loop. */
  lemma {:induction false} UserDeletionRefines(s: State, w: World, sweeps: seq<Sweep>)
    requires SweepsAhead(s, w, sweeps)
    ensures var s' := Run(s, UserDeletionScript(w, sweeps));
            && s'.user == UserIdle && OnlyUserMoved(s, s')
            && s'.stores == StoresOf(DeleteUser(w, sweeps).world)
    decreases |sweeps|
  {
    if sweeps == [] {
      OneStep(s, UserCall(Served));
    } else {
      var head := sweeps[0];
      assert head in sweeps;
      var r := Purge(w[head.cluster], head.listing);
      var script := SweepScript(w[head.cluster], head);
      SweepRuns(s, w[head.cluster], head);
      var s1, w1 := Run(s, script), w[head.cluster := r.cluster];
      assert s1.stores == StoresOf(w1);
      if r.outcome.Done? {
        SweepsAheadTail(s, s1, w, w1, sweeps);
        UserDeletionRefines(s1, w1, sweeps[1..]);
        RunAppend(s, script, UserDeletionScript(w1, sweeps[1..]));
      } else {
        assert UserDeletionScript(w, sweeps) == script;
      }
    }
  }

  // ---- Whole reconciles, from the reads on ----

  ghost predicate ItemsFrom(items: seq<GlobalUser>, users: set<GlobalUser>) {
    (forall g <- items :: g in users) && DistinctNames(items)
  }

  /** An idle Org worker that reads this version of the org and these global users does to the clusters
      what reconciling all the org's spaces does, fault by fault. */
  lemma OrgReconcileRefines(s: State, w: World, org: Org, items: seq<GlobalUser>)
    requires s.org == OrgIdle && s.stores == StoresOf(w) && org in s.orgs && ItemsFrom(items, s.users)
    ensures var s' := Run(s, [OrgGet(org), OrgList(items)] + OrgScript(w, org, org.spaces, AsUsers(items)));
            && s'.org == OrgIdle && OnlyOrgMoved(s, s')
            && s'.stores == StoresOf(ReconcileSpaces(w, org, org.spaces, AsUsers(items), Done).world)
  {
    var prefix := [OrgGet(org)] + [OrgList(items)];
    OneStep(s, OrgGet(org));
    var s1 := Step(s, OrgGet(org));
    OneStep(s1, OrgList(items));
    RunAppend(s, [OrgGet(org)], [OrgList(items)]);
    assert [OrgGet(org), OrgList(items)] == prefix;
    OrgWorkerRefines(Step(s1, OrgList(items)), w, Done);
    RunAppend(s, prefix, OrgScript(w, org, org.spaces, AsUsers(items)));
  }

  /** An idle Org worker that finds the org gone does what the deletion loop does. */
  lemma OrgDeletionReconcileRefines(s: State, w: World, name: string, order: seq<string>)
    requires s.org == OrgIdle && s.stores == StoresOf(w) && Enumerates(order, w.Keys)
    ensures var s' := Run(s, [OrgGetMissing(name)] + OrgDeletionScript(w, order, name));
            && s'.org == OrgIdle && OnlyOrgMoved(s, s')
            && s'.stores == StoresOf(DeleteOrg(w, order, name).world)
  {
    OneStep(s, OrgGetMissing(name));
    assert s.stores.Keys == w.Keys;
    OrgDeletionRefines(Step(s, OrgGetMissing(name)), w, order);
    RunAppend(s, [OrgGetMissing(name)], OrgDeletionScript(w, order, name));
  }

  /** An idle GlobalUser worker that reads this version of the user does what the loop over the clusters
      does. */
  lemma UserReconcileRefines(s: State, w: World, user: GlobalUser, visits: seq<Visit>)
    requires s.user == UserIdle && s.stores == StoresOf(w) && user in s.users && ValidVisits(w, visits)
    ensures VisitsIn(w, visits)
    ensures var s' := Run(s, [UserGet(user)] + UserScript(w, user, visits));
            && s'.user == UserIdle && OnlyUserMoved(s, s')
            && s'.stores == StoresOf(ReconcileUser(w, user, visits).world)
  {
    GlobalUserTheorems.ValidVisitsVisitAll(w, visits);
    OneStep(s, UserGet(user));
    assert s.stores.Keys == w.Keys;
    UserWorkerRefines(Step(s, UserGet(user)), w, visits);
    RunAppend(s, [UserGet(user)], UserScript(w, user, visits));
  }

  /** An idle GlobalUser worker that finds the user gone does what the deletion loop does. */
  lemma UserDeletionReconcileRefines(s: State, w: World, name: string, sweeps: seq<Sweep>)
    requires s.user == UserIdle && s.stores == StoresOf(w) && ValidSweeps(w, sweeps, name)
    ensures SweepsIn(w, sweeps)
    ensures var s' := Run(s, [UserGetMissing(name)] + UserDeletionScript(w, sweeps));
            && s'.user == UserIdle && OnlyUserMoved(s, s')
            && s'.stores == StoresOf(DeleteUser(w, sweeps).world)
  {
    GlobalUserTheorems.ValidSweepsSweepAll(w, sweeps, name);
    OneStep(s, UserGetMissing(name));
    assert s.stores.Keys == w.Keys;
    UserDeletionRefines(Step(s, UserGetMissing(name)), w, sweeps);
    RunAppend(s, [UserGetMissing(name)], UserDeletionScript(w, sweeps));
  }

  // ---- Specs, crashes and other errors ----

  /** Someone has just written the org; the Org worker, wherever it was, crashes and starts again: it does
      what a fresh reconcile of that version does. */
  lemma WrittenOrgIsReconciled(s: State, w: World, org: Org, items: seq<GlobalUser>)
    requires s.stores == StoresOf(w) && ItemsFrom(items, s.users)
    ensures var s' := Run(s, [PutOrg(org), OrgStop]
                             + ([OrgGet(org), OrgList(items)] + OrgScript(w, org, org.spaces, AsUsers(items))));
            && s'.org == OrgIdle && s'.user == s.user && s'.users == s.users && s'.orgs == s.orgs + {org}
            && s'.stores == StoresOf(ReconcileSpaces(w, org, org.spaces, AsUsers(items), Done).world)
  {
    var script := [OrgGet(org), OrgList(items)] + OrgScript(w, org, org.spaces, AsUsers(items));
    TwoSteps(s, PutOrg(org), OrgStop);
    RunAppend(s, [PutOrg(org), OrgStop], script);
    OrgReconcileRefines(Step(Step(s, PutOrg(org)), OrgStop), w, org, items);
  }

  /** The same for a global user. */
  lemma WrittenUserIsReconciled(s: State, w: World, user: GlobalUser, visits: seq<Visit>)
    requires s.stores == StoresOf(w) && ValidVisits(w, visits)
    ensures VisitsIn(w, visits)
    ensures var s' := Run(s, [PutUser(user), UserStop] + ([UserGet(user)] + UserScript(w, user, visits)));
            && s'.user == UserIdle && s'.org == s.org && s'.orgs == s.orgs && s'.users == s.users + {user}
            && s'.stores == StoresOf(ReconcileUser(w, user, visits).world)
  {
    assert VisitsIn(w, visits);
    TwoSteps(s, PutUser(user), UserStop);
    RunAppend(s, [PutUser(user), UserStop], [UserGet(user)] + UserScript(w, user, visits));
    UserReconcileRefines(Step(Step(s, PutUser(user)), UserStop), w, user, visits);
  }

  lemma TwoSteps(s: State, a: Action, b: Action)
    ensures Run(s, [a, b]) == Step(Step(s, a), b)
  {
    assert [a, b] == [a] + [b];
    RunAppend(s, [a], [b]);
    OneStep(s, a);
    OneStep(Step(s, a), b);
  }

  /** So from the empty start every org can be reconciled to what its spec asks for: a run of the machine
      gets there, under any faults. */
  lemma FirstReconcile(clusters: set<string>, w: World, org: Org)
    requires w.Keys == clusters && forall cluster <- w :: w[cluster].store == Store(map[], map[])
    ensures var s' := Run(Start(clusters), [PutOrg(org), OrgStop]
                                           + ([OrgGet(org), OrgList([])] + OrgScript(w, org, org.spaces, AsUsers([]))));
            s'.stores == StoresOf(ReconcileSpaces(w, org, org.spaces, AsUsers([]), Done).world)
  {
    assert Start(clusters).stores == StoresOf(w);
    WrittenOrgIsReconciled(Start(clusters), w, org, []);
  }
}

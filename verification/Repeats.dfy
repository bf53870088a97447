/** What a second reconcile does: the condition under which nothing changes, and when it holds. */
module Repeats {
  import opened Names
  import opened Api
  import opened Grants
  import opened OrgSpec
  import opened OrgTheorems
  import opened GlobalUserSpec
  import opened GlobalUserTheorems

  /** The namespace exists and so does the first thing the space asks for: nothing can follow. */
  ghost predicate SpaceSettled(s: Store, org: Org, space: Space, globals: seq<User>) {
    var wanted := Wanted(org, space, globals);
    NamespaceOf(org, space) in s.namespaces && (wanted == [] || KeyOf(wanted[0]) in s.bindings)
  }

  ghost predicate Settled(w: World, org: Org, spaces: seq<Space>, globals: seq<User>) {
    forall i :: 0 <= i < Known(w.Keys, spaces) ==>
                  SpaceSettled(w[spaces[i].clusterName].store, org, spaces[i], globals)
  }

  lemma SpaceSettles(c: Cluster, org: Org, space: Space, globals: seq<User>)
    requires c.faults == []
    ensures SpaceSettled(ReconcileSpace(c, org, space, globals).cluster.store, org, space, globals)
  {
    var wanted := Wanted(org, space, globals);
    SpaceIsOnePass(c, org, space, globals);
    WantedInNamespace(org, space, globals);
    var created := EnsureNamespace(c, org, NamespaceOf(org, space)).cluster;
    PassBounds(created, wanted);
    if wanted != [] {
      assert wanted[0] in wanted;
      PassLeavesFirstKey(created, wanted);
    }
  }

  /** A settled space changes nothing, and reports an error unless it asks for nothing. */
  lemma SettledSpaceIsIdle(c: Cluster, org: Org, space: Space, globals: seq<User>)
    requires c.faults == [] && SpaceSettled(c.store, org, space, globals)
    ensures ReconcileSpace(c, org, space, globals)
            == SpaceResult(c, if Wanted(org, space, globals) == [] then Done else Failed(BindingFailed(AlreadyExists)))
  {
    var wanted := Wanted(org, space, globals);
    SpaceIsOnePass(c, org, space, globals);
    WantedInNamespace(org, space, globals);
    if wanted != [] {
      assert wanted[0] in wanted;
      PassBlocked(c, wanted);
    }
  }

  lemma SettledStays(w: World, w': World, org: Org, spaces: seq<Space>, globals: seq<User>)
    requires WorldGrows(w, w') && Settled(w, org, spaces, globals)
    ensures Settled(w', org, spaces, globals)
  {
  }

  lemma {:induction false} SpacesSettle(w: World, org: Org, spaces: seq<Space>, globals: seq<User>, last: Outcome)
    requires FaultFree(w)
    ensures Settled(ReconcileSpaces(w, org, spaces, globals, last).world, org, spaces, globals)
    decreases |spaces|
  {
    if spaces != [] && spaces[0].clusterName in w {
      var head, rest := spaces[0], spaces[1..];
      var r := ReconcileSpace(w[head.clusterName], org, head, globals);
      var w1 := w[head.clusterName := r.cluster];
      SpaceSettles(w[head.clusterName], org, head, globals);
      SpaceGrows(w[head.clusterName], org, head, globals);
      SpacesSettle(w1, org, rest, globals, r.outcome);
      SpacesGrow(w1, org, rest, globals, r.outcome);
      var w' := ReconcileSpaces(w1, org, rest, globals, r.outcome).world;
      forall i | 0 <= i < Known(w'.Keys, spaces)
        ensures SpaceSettled(w'[spaces[i].clusterName].store, org, spaces[i], globals)
      {
        assert i > 0 ==> spaces[i] == rest[i - 1];
      }
    }
  }

  lemma SettledTail(w: World, org: Org, spaces: seq<Space>, globals: seq<User>)
    requires Settled(w, org, spaces, globals) && spaces != [] && spaces[0].clusterName in w
    ensures SpaceSettled(w[spaces[0].clusterName].store, org, spaces[0], globals)
    ensures Settled(w, org, spaces[1..], globals) && Known(w.Keys, spaces) == 1 + Known(w.Keys, spaces[1..])
  {
    assert SpaceSettled(w[spaces[0].clusterName].store, org, spaces[0], globals);
    var rest := spaces[1..];
    assert forall i :: 0 <= i < Known(w.Keys, rest) ==> rest[i] == spaces[i + 1];
  }

  /** The outcome when every space is idle: an unknown cluster, or else the last space, decides. */
  function IdleOutcome(clusters: set<string>, org: Org, spaces: seq<Space>, globals: seq<User>, last: Outcome): Outcome {
    var n := Known(clusters, spaces);
    if n < |spaces| then Failed(UnknownCluster(spaces[n].clusterName))
    else if n == 0 then last
    else if Wanted(org, spaces[n - 1], globals) == [] then Done
    else Failed(BindingFailed(AlreadyExists))
  }

  lemma IdleOutcomeTail(clusters: set<string>, org: Org, spaces: seq<Space>, globals: seq<User>, last: Outcome)
    requires spaces != [] && spaces[0].clusterName in clusters
    ensures IdleOutcome(clusters, org, spaces, globals, last)
            == IdleOutcome(clusters, org, spaces[1..], globals,
                           if Wanted(org, spaces[0], globals) == [] then Done else Failed(BindingFailed(AlreadyExists)))
  {
    var n, rest := Known(clusters, spaces), spaces[1..];
    assert n == 1 + Known(clusters, rest);
    assert n < |spaces| ==> spaces[n] == rest[n - 1];
    assert n > 1 ==> spaces[n - 1] == rest[n - 2];
  }

  lemma {:induction false} SettledSpacesAreIdle(
    w: World, org: Org, spaces: seq<Space>, globals: seq<User>, last: Outcome)
    requires FaultFree(w) && Settled(w, org, spaces, globals)
    ensures ReconcileSpaces(w, org, spaces, globals, last)
            == WorldResult(w, IdleOutcome(w.Keys, org, spaces, globals, last))
    decreases |spaces|
  {
    if spaces != [] && spaces[0].clusterName in w {
      var head := spaces[0];
      SettledTail(w, org, spaces, globals);
      SettledSpaceIsIdle(w[head.clusterName], org, head, globals);
      var r := ReconcileSpace(w[head.clusterName], org, head, globals);
      assert w[head.clusterName := r.cluster] == w;
      SettledSpacesAreIdle(w, org, spaces[1..], globals, r.outcome);
      IdleOutcomeTail(w.Keys, org, spaces, globals, last);
    }
  }

  // ---- When one space changes nothing ----

  /** With no faults, a space leaves its cluster as it is exactly when it is settled. */
  lemma SpaceIdleExactly(c: Cluster, org: Org, space: Space, globals: seq<User>)
    requires c.faults == []
    ensures ReconcileSpace(c, org, space, globals).cluster == c <==> SpaceSettled(c.store, org, space, globals)
  {
    SpaceSettles(c, org, space, globals);
    if SpaceSettled(c.store, org, space, globals) {
      SettledSpaceIsIdle(c, org, space, globals);
    }
  }

  // ---- When the spec of a settled space changes ----

  /** Any other org, space and global list over the same namespace: the next fault-free reconcile
      changes nothing exactly when the first thing now asked for is there, or nothing is. */
  lemma ChangedSpecIgnoredExactly(c: Cluster, org: Org, space: Space, globals: seq<User>,
                                  org': Org, space': Space, globals': seq<User>)
    requires c.faults == [] && SpaceSettled(c.store, org, space, globals)
    requires NamespaceOf(org', space') == NamespaceOf(org, space)
    ensures var wanted' := Wanted(org', space', globals');
            ReconcileSpace(c, org', space', globals').cluster == c
            <==> wanted' == [] || KeyOf(wanted'[0]) in c.store.bindings
  {
    SpaceIdleExactly(c, org', space', globals');
  }

  /** What starts with the same request over the same namespace is settled too. */
  lemma SameStartIsIdle(c: Cluster, org: Org, space: Space, globals: seq<User>,
                        org': Org, space': Space, globals': seq<User>)
    requires c.faults == [] && SpaceSettled(c.store, org, space, globals)
    requires NamespaceOf(org', space') == NamespaceOf(org, space)
    requires Wanted(org, space, globals) != [] && Wanted(org', space', globals') != []
    requires Wanted(org', space', globals')[0] == Wanted(org, space, globals)[0]
    ensures ReconcileSpace(c, org', space', globals') == SpaceResult(c, Failed(BindingFailed(AlreadyExists)))
  {
    SettledSpaceIsIdle(c, org', space', globals');
  }

  lemma AppendedSpaceUsersWanted(org: Org, space: Space, more: seq<User>, globals: seq<User>)
    ensures Wanted(org, space, globals) <= Wanted(org, space.(users := space.users + more), globals)
  {
    FlattenAppend(space.users, more, OTHER_LEVEL, NamespaceOf(org, space));
  }

  /** Users appended to a space that already asks for something get no binding. */
  lemma AppendedSpaceUsersAreIgnored(c: Cluster, org: Org, space: Space, more: seq<User>, globals: seq<User>)
    requires c.faults == [] && SpaceSettled(c.store, org, space, globals) && Wanted(org, space, globals) != []
    ensures ReconcileSpace(c, org, space.(users := space.users + more), globals)
            == SpaceResult(c, Failed(BindingFailed(AlreadyExists)))
  {
    AppendedSpaceUsersWanted(org, space, more, globals);
    SameStartIsIdle(c, org, space, globals, org, space.(users := space.users + more), globals);
  }

  /** What a space asks for before its own users. */
  function WantedFirst(org: Org, space: Space, globals: seq<User>): seq<Request> {
    Flatten(globals, GLOBAL_LEVEL, NamespaceOf(org, space)) + Flatten(org.users, OTHER_LEVEL, NamespaceOf(org, space))
  }

  lemma AppendedOrgUsersWanted(org: Org, space: Space, more: seq<User>, globals: seq<User>)
    ensures WantedFirst(org, space, globals) <= Wanted(org, space, globals)
    ensures WantedFirst(org, space, globals) <= WantedFirst(org.(users := org.users + more), space, globals)
    ensures WantedFirst(org.(users := org.users + more), space, globals)
            <= Wanted(org.(users := org.users + more), space, globals)
  {
    FlattenAppend(org.users, more, OTHER_LEVEL, NamespaceOf(org, space));
  }

  /** Users appended to an org get no binding in a space for which the global users or the other org
      users already ask for something. */
  lemma AppendedOrgUsersAreIgnored(c: Cluster, org: Org, space: Space, more: seq<User>, globals: seq<User>)
    requires c.faults == [] && SpaceSettled(c.store, org, space, globals) && WantedFirst(org, space, globals) != []
    ensures ReconcileSpace(c, org.(users := org.users + more), space, globals)
            == SpaceResult(c, Failed(BindingFailed(AlreadyExists)))
  {
    AppendedOrgUsersWanted(org, space, more, globals);
    SameStartIsIdle(c, org, space, globals, org.(users := org.users + more), space, globals);
  }

  /** Otherwise they do: in a space that is settled but in which neither global nor org users ask for
      anything, a user appended to the org comes first and is granted, if the key is free. */
  lemma AppendedOrgUserIsGranted(c: Cluster, org: Org, space: Space, name: string, role: string)
    requires c.faults == [] && org.users == [] && NamespaceOf(org, space) in c.store.namespaces
    requires Key(NamespaceOf(org, space), Join(name, role)) !in c.store.bindings
    ensures var want := Request(NamespaceOf(org, space), name, role, OTHER_LEVEL);
            var s' := ReconcileSpace(c, org.(users := [User(name, [role])]), space, []).cluster.store;
            KeyOf(want) in s'.bindings && s'.bindings[KeyOf(want)] == BindingOf(want)
  {
    var longer := org.(users := [User(name, [role])]);
    var want := Request(NamespaceOf(org, space), name, role, OTHER_LEVEL);
    var wanted := Wanted(longer, space, []);
    SpaceIsOnePass(c, longer, space, []);
    WantedOfOne(longer, space, name, role);
    var a := Create(c, want);
    PassBounds(a.cluster, wanted[1..]);
  }

  lemma WantedOfOne(org: Org, space: Space, name: string, role: string)
    requires org.users == [User(name, [role])]
    ensures var wanted := Wanted(org, space, []);
            wanted != [] && wanted[0] == Request(NamespaceOf(org, space), name, role, OTHER_LEVEL)
  {
  }

  /** So the first binding being there is not enough: a space of an org without users grants its own
      user and is settled, and a user then appended to the org is granted all the same. */
  lemma FirstBindingIsNotEnough(c: Cluster, org: Org, user: string, role: string, name: string, role': string)
    requires c.faults == [] && c.store.bindings == map[] && Join(user, role) != Join(name, role')
    requires org.users == [] && |org.spaces| == 1 && org.spaces[0].users == [User(user, [role])]
    requires NamespaceOf(org, org.spaces[0]) in c.store.namespaces
    ensures var space, namespace := org.spaces[0], NamespaceOf(org, org.spaces[0]);
            var c1 := ReconcileSpace(c, org, space, []).cluster;
            var c2 := ReconcileSpace(c1, org.(users := [User(name, [role'])]), space, []).cluster;
            && SpaceSettled(c1.store, org, space, []) && Key(namespace, Join(user, role)) in c1.store.bindings
            && Key(namespace, Join(name, role')) !in c1.store.bindings
            && Key(namespace, Join(name, role')) in c2.store.bindings
  {
    var space, namespace := org.spaces[0], NamespaceOf(org, org.spaces[0]);
    var want := Request(namespace, user, role, OTHER_LEVEL);
    SecondOrgJoins(c, org, namespace, user, role);
    var c1 := ReconcileSpace(c, org, space, []).cluster;
    assert c1.store.bindings == map[KeyOf(want) := BindingOf(want)];
    SpaceSettles(c, org, space, []);
    AppendedOrgUserIsGranted(c1, org, space, name, role');
  }

  // ---- Whole reconciles ----

  /** With no faults, a reconcile leaves all clusters as they are exactly when every space before the
      first unknown cluster is settled; the outcome is then known too. */
  lemma IdleExactly(w: World, org: Org, globals: seq<User>)
    requires FaultFree(w)
    ensures var r := ReconcileSpaces(w, org, org.spaces, globals, Done);
            && (r.world == w <==> Settled(w, org, org.spaces, globals))
            && (r.world == w ==> r.outcome == IdleOutcome(w.Keys, org, org.spaces, globals, Done))
  {
    SpacesSettle(w, org, org.spaces, globals, Done);
    if Settled(w, org, org.spaces, globals) {
      SettledSpacesAreIdle(w, org, org.spaces, globals, Done);
    }
  }

  /** In every space before the first unknown cluster, the first thing asked for is there. */
  ghost predicate FirstWantedPresent(w: World, org: Org, globals: seq<User>) {
    forall i :: 0 <= i < Known(w.Keys, org.spaces) ==>
                  var wanted := Wanted(org, org.spaces[i], globals);
                  wanted == [] || KeyOf(wanted[0]) in w[org.spaces[i].clusterName].store.bindings
  }

  /** A repeat: after a fault-free reconcile and any later additions, reconciling the same spec again
      with any global list, in particular the same one in another order, changes no cluster exactly
      when the first thing each space now asks for is there. */
  lemma RepeatExactly(w: World, w': World, org: Org, globals: seq<User>, globals': seq<User>)
    requires FaultFree(w) && FaultFree(w')
    requires WorldGrows(ReconcileSpaces(w, org, org.spaces, globals, Done).world, w')
    ensures ReconcileSpaces(w', org, org.spaces, globals', Done).world == w' <==> FirstWantedPresent(w', org, globals')
  {
    SpacesSettle(w, org, org.spaces, globals, Done);
    SettledStays(ReconcileSpaces(w, org, org.spaces, globals, Done).world, w', org, org.spaces, globals);
    IdleExactly(w', org, globals');
    SettledByFirst(w', org, globals, globals');
  }

  lemma SettledByFirst(w: World, org: Org, globals: seq<User>, globals': seq<User>)
    requires Settled(w, org, org.spaces, globals)
    ensures Settled(w, org, org.spaces, globals') <==> FirstWantedPresent(w, org, globals')
  {
    forall i | 0 <= i < Known(w.Keys, org.spaces)
      ensures NamespaceOf(org, org.spaces[i]) in w[org.spaces[i].clusterName].store.namespaces
    {
      assert SpaceSettled(w[org.spaces[i].clusterName].store, org, org.spaces[i], globals);
    }
    if Settled(w, org, org.spaces, globals') {
      forall i | 0 <= i < Known(w.Keys, org.spaces)
        ensures var wanted := Wanted(org, org.spaces[i], globals');
                wanted == [] || KeyOf(wanted[0]) in w[org.spaces[i].clusterName].store.bindings
      {
        assert SpaceSettled(w[org.spaces[i].clusterName].store, org, org.spaces[i], globals');
      }
    }
  }

  /** Idempotence: with the same global list in the same order, the repeat changes nothing.  It reports
      success only if no cluster is unknown and the last space asks for nothing: every other repeat
      ends in an error. */
  lemma RepeatChangesNothing(w: World, w': World, org: Org, globals: seq<User>)
    requires FaultFree(w) && FaultFree(w')
    requires WorldGrows(ReconcileSpaces(w, org, org.spaces, globals, Done).world, w')
    ensures var again := ReconcileSpaces(w', org, org.spaces, globals, Done);
            && again.world == w'
            && again.outcome == IdleOutcome(w'.Keys, org, org.spaces, globals, Done)
  {
    SpacesSettle(w, org, org.spaces, globals, Done);
    SettledStays(ReconcileSpaces(w, org, org.spaces, globals, Done).world, w', org, org.spaces, globals);
    IdleExactly(w', org, globals);
  }

  lemma IdleSucceedsExactly(clusters: set<string>, org: Org, globals: seq<User>)
    ensures IdleOutcome(clusters, org, org.spaces, globals, Done).Done?
            <==> Known(clusters, org.spaces) == |org.spaces|
                 && (org.spaces != [] ==> Wanted(org, org.spaces[|org.spaces| - 1], globals) == [])
  {
  }

  // ---- After a reconcile in which every space succeeded ----

  ghost predicate EverySpaceSucceeds(w: World, org: Org, spaces: seq<Space>, globals: seq<User>)
    decreases |spaces|
  {
    spaces == [] || spaces[0].clusterName !in w
    || var r := ReconcileSpace(w[spaces[0].clusterName], org, spaces[0], globals);
       r.outcome.Done? && EverySpaceSucceeds(w[spaces[0].clusterName := r.cluster], org, spaces[1..], globals)
  }

  /** Everything the space asks for is there. */
  ghost predicate AllPresent(s: Store, org: Org, space: Space, globals: seq<User>) {
    forall r <- Wanted(org, space, globals) :: KeyOf(r) in s.bindings
  }

  lemma SuccessIsComplete(c: Cluster, org: Org, space: Space, globals: seq<User>)
    requires c.faults == [] && ReconcileSpace(c, org, space, globals).outcome.Done?
    ensures AllPresent(ReconcileSpace(c, org, space, globals).cluster.store, org, space, globals)
  {
    var wanted := Wanted(org, space, globals);
    SpaceIsOnePass(c, org, space, globals);
    WantedInNamespace(org, space, globals);
    PassAllOrNot(EnsureNamespace(c, org, NamespaceOf(org, space)).cluster, wanted);
    forall r | r in wanted ensures KeyOf(r) in Granted(wanted) {
      GrantedKeys(wanted, KeyOf(r));
    }
  }

  lemma {:induction false} SuccessesAreComplete(
    w: World, org: Org, spaces: seq<Space>, globals: seq<User>, last: Outcome)
    requires FaultFree(w) && EverySpaceSucceeds(w, org, spaces, globals)
    ensures var w' := ReconcileSpaces(w, org, spaces, globals, last).world;
            w'.Keys == w.Keys
            && forall i :: 0 <= i < Known(w.Keys, spaces) ==>
                             AllPresent(w'[spaces[i].clusterName].store, org, spaces[i], globals)
    decreases |spaces|
  {
    SpacesGrow(w, org, spaces, globals, last);
    if spaces != [] && spaces[0].clusterName in w {
      var head, rest := spaces[0], spaces[1..];
      var r := ReconcileSpace(w[head.clusterName], org, head, globals);
      var w1 := w[head.clusterName := r.cluster];
      SuccessIsComplete(w[head.clusterName], org, head, globals);
      SpaceGrows(w[head.clusterName], org, head, globals);
      SpacesGrow(w1, org, rest, globals, r.outcome);
      SuccessesAreComplete(w1, org, rest, globals, r.outcome);
      assert forall i :: 0 < i < |spaces| ==> spaces[i] == rest[i - 1];
      assert w1.Keys == w.Keys;
    }
  }

  /** With a global list of no other users, a space asks for nothing new. */
  lemma NothingNewWanted(org: Org, space: Space, globals: seq<User>, globals': seq<User>, r: Request)
    requires (forall u <- globals' :: u in globals) && r in Wanted(org, space, globals')
    ensures r in Wanted(org, space, globals)
  {
    var namespace := NamespaceOf(org, space);
    if r in Flatten(globals', GLOBAL_LEVEL, namespace) {
      FlattenMember(globals', GLOBAL_LEVEL, namespace, r);
      var u :| u in globals' && r.user == u.name && r.role in u.roles;
      FlattenHas(globals, u, r.role, GLOBAL_LEVEL, namespace);
    }
  }

  /** After a fault-free reconcile in which every space before the first unknown cluster succeeded, and
      any later additions, the repeat changes nothing whatever the order of the global list, and even
      if users have gone from it. */
  lemma RepeatOfSuccessChangesNothing(w: World, w': World, org: Org, globals: seq<User>, globals': seq<User>)
    requires FaultFree(w) && FaultFree(w') && EverySpaceSucceeds(w, org, org.spaces, globals)
    requires WorldGrows(ReconcileSpaces(w, org, org.spaces, globals, Done).world, w')
    requires forall u <- globals' :: u in globals
    ensures ReconcileSpaces(w', org, org.spaces, globals', Done).world == w'
  {
    RepeatExactly(w, w', org, globals, globals');
    SuccessesAreComplete(w, org, org.spaces, globals, Done);
    forall i | 0 <= i < Known(w'.Keys, org.spaces)
      ensures var wanted := Wanted(org, org.spaces[i], globals');
              wanted == [] || KeyOf(wanted[0]) in w'[org.spaces[i].clusterName].store.bindings
    {
      var wanted := Wanted(org, org.spaces[i], globals');
      if wanted != [] {
        NothingNewWanted(org, org.spaces[i], globals, globals', wanted[0]);
      }
    }
  }

  /** Without that success the order matters: where another worker has created the first user's
      binding, a reconcile that lists this user first changes nothing, and a repeat that lists the
      same two users the other way round grants the second. */
  lemma OrderOfGlobalsMatters(c: Cluster, org: Org, space: Space, a: User, b: User, role: string, role': string)
    requires c.faults == [] && a.roles == [role] && b.roles == [role'] && Join(a.name, role) != Join(b.name, role')
    requires NamespaceOf(org, space) in c.store.namespaces
    requires c.store.bindings.Keys == {Key(NamespaceOf(org, space), Join(a.name, role))}
    ensures multiset([a, b]) == multiset([b, a])
    ensures ReconcileSpace(c, org, space, [a, b]).cluster == c
    ensures var s' := ReconcileSpace(c, org, space, [b, a]).cluster.store;
            Key(NamespaceOf(org, space), Join(b.name, role')) in s'.bindings
  {
    WantedStartsWith(org, space, [a, b], role);
    WantedStartsWith(org, space, [b, a], role');
    SpaceIdleExactly(c, org, space, [a, b]);
    SpaceSettles(c, org, space, [b, a]);
  }

  lemma WantedStartsWith(org: Org, space: Space, globals: seq<User>, role: string)
    requires globals != [] && globals[0].roles == [role]
    ensures var wanted := Wanted(org, space, globals);
            wanted != [] && wanted[0] == Request(NamespaceOf(org, space), globals[0].name, role, GLOBAL_LEVEL)
  {
  }

  // ---- With other reconciles in between ----

  /** A reconcile that creates: of some org, or of some global user. */
  datatype Creating =
    | OfOrg(org: Org, globals: seq<User>)
    | OfUser(user: GlobalUser, visits: seq<Visit>)

  ghost predicate Possible(w: World, pass: Creating) {
    pass.OfUser? ==> ValidVisits(w, pass.visits)
  }

  function AfterPass(w: World, pass: Creating): World
    requires Possible(w, pass)
  {
    match pass
    case OfOrg(org, globals) => ReconcileSpaces(w, org, org.spaces, globals, Done).world
    case OfUser(user, visits) => ReconcileUser(w, user, visits).world
  }

  ghost predicate AllPossible(w: World, passes: seq<Creating>)
    decreases |passes|
  {
    passes == [] || (Possible(w, passes[0]) && AllPossible(AfterPass(w, passes[0]), passes[1..]))
  }

  function AfterPasses(w: World, passes: seq<Creating>): World
    requires AllPossible(w, passes)
    decreases |passes|
  {
    if passes == [] then w else AfterPasses(AfterPass(w, passes[0]), passes[1..])
  }

  /** The passes run one after the other, each from what the one before left. */
  lemma {:induction false} PassesInTurn(w: World, passes: seq<Creating>, pass: Creating)
    requires AllPossible(w, passes) && Possible(AfterPasses(w, passes), pass)
    ensures AllPossible(w, passes + [pass])
    ensures AfterPasses(w, passes + [pass]) == AfterPass(AfterPasses(w, passes), pass)
    decreases |passes|
  {
    if passes == [] {
      assert passes + [pass] == [pass] && [pass][1..] == [];
    } else {
      assert (passes + [pass])[1..] == passes[1..] + [pass];
      PassesInTurn(AfterPass(w, passes[0]), passes[1..], pass);
    }
  }

  lemma {:induction false} PassesGrow(w: World, passes: seq<Creating>)
    requires AllPossible(w, passes)
    ensures WorldGrows(w, AfterPasses(w, passes))
    decreases |passes|
  {
    if passes != [] {
      match passes[0] {
        case OfOrg(org, globals) => SpacesGrow(w, org, org.spaces, globals, Done);
        case OfUser(user, visits) => ReconcileUserGrows(w, user, visits);
      }
      var w1 := AfterPass(w, passes[0]);
      PassesGrow(w1, passes[1..]);
      GrowsOn(w, w1, AfterPasses(w1, passes[1..]));
    }
  }

  lemma GrowsOn(w: World, w1: World, w2: World)
    requires WorldGrows(w, w1) && WorldGrows(w1, w2)
    ensures WorldGrows(w, w2)
  {
    forall name | name in w ensures Grows(w[name].store, w2[name].store) {
      assert Grows(w[name].store, w1[name].store) && Grows(w1[name].store, w2[name].store);
    }
  }

  /** Idempotence with any creating reconciles in between, of this or other orgs and of global users,
      each stopped anywhere by any fault: a fault-free repeat changes no cluster. */
  lemma RepeatAfterOthersChangesNothing(
    w: World, org: Org, globals: seq<User>, w1: World, passes: seq<Creating>)
    requires FaultFree(w) && SameStores(ReconcileSpaces(w, org, org.spaces, globals, Done).world, w1)
    requires AllPossible(w1, passes)
    ensures var w2 := Calm(AfterPasses(w1, passes));
            ReconcileSpaces(w2, org, org.spaces, globals, Done).world == w2
  {
    var first := ReconcileSpaces(w, org, org.spaces, globals, Done).world;
    PassesGrow(w1, passes);
    GrowsOn(first, w1, Calm(AfterPasses(w1, passes)));
    RepeatChangesNothing(w, Calm(AfterPasses(w1, passes)), org, globals);
  }
}

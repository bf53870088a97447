/** The race between the two workers over one global user: whoever creates the user's first binding in
    a namespace creates all of them. */
module Winner {
  import opened Names
  import opened Api
  import opened Grants
  import opened OrgSpec
  import opened GlobalUserSpec
  import opened Workers

  // ---- Runs with no faults and no deletions, in which the user does not change ----

  ghost predicate AvoidsAll(users: seq<User>, u: GlobalUser) {
    forall v <- users :: DashFree(v.name) && v.name != u.name
  }

  /** The org lists users with dash-free names other than `u`. */
  ghost predicate OrgAvoids(org: Org, u: GlobalUser) {
    AvoidsAll(org.users, u) && forall space <- org.spaces :: AvoidsAll(space.users, u)
  }

  ghost predicate UserFits(g: GlobalUser, u: GlobalUser) {
    DashFree(g.name) && (g.name == u.name ==> g == u)
  }

  ghost predicate Quiet(a: Action, u: GlobalUser) {
    match a
    case PutOrg(org) => OrgAvoids(org, u)
    case PutUser(g) => UserFits(g, u)
    case OrgCall(fault) => fault == Served
    case UserCall(fault) => fault == Served
    case OrgGet(_) => true
    case OrgList(_) => true
    case UserGet(_) => true
    case UserList(_, _) => true
    case _ => false
  }

  ghost predicate Racing(u: GlobalUser) {
    DashFree(u.name) && DistinctRoles(u.roles)
  }

  // ---- The shape of the work ahead: the user's requests come in whole blocks ----

  function RoleRequest(u: GlobalUser, namespace: string, i: nat): Request
    requires i < |u.roles|
  {
    Request(namespace, u.name, u.roles[i], GLOBAL_LEVEL)
  }

  ghost predicate Clean(u: GlobalUser, r: Request) {
    DashFree(r.user) && (r.user == u.name ==> r.level == GLOBAL_LEVEL && r.role in u.roles)
  }

  ghost predicate IsRole(u: GlobalUser, r: Request, i: int) {
    0 <= i < |u.roles| && r == RoleRequest(u, r.namespace, i)
  }

  /** Within the list, each role of the user is followed by the next one and preceded by the last. */
  ghost predicate Blocks(u: GlobalUser, todo: seq<Request>) {
    && (forall r <- todo :: Clean(u, r))
    && (forall k, i :: 0 <= k < |todo| && IsRole(u, todo[k], i) && i + 1 < |u.roles| ==>
          k + 1 < |todo| && todo[k + 1] == RoleRequest(u, todo[k].namespace, i + 1))
    && (forall k, i :: 0 < k < |todo| && IsRole(u, todo[k], i) && i > 0 ==>
          todo[k - 1] == RoleRequest(u, todo[k].namespace, i - 1))
  }

  /** The list does not start in the middle of a block. */
  ghost predicate StartsWhole(u: GlobalUser, todo: seq<Request>) {
    forall i :: todo != [] && IsRole(u, todo[0], i) ==> i == 0
  }

  ghost predicate Whole(u: GlobalUser, todo: seq<Request>) {
    Blocks(u, todo) && StartsWhole(u, todo)
  }

  lemma BlocksTail(u: GlobalUser, todo: seq<Request>)
    requires Racing(u) && todo != [] && Blocks(u, todo)
    ensures Blocks(u, todo[1..])
    ensures forall i :: IsRole(u, todo[0], i) && i + 1 < |u.roles| ==>
                          |todo| > 1 && todo[1] == RoleRequest(u, todo[0].namespace, i + 1)
    ensures (forall i :: IsRole(u, todo[0], i) ==> i + 1 == |u.roles|) ==> StartsWhole(u, todo[1..])
  {
    var tail := todo[1..];
    assert forall k :: 0 <= k < |tail| ==> tail[k] == todo[k + 1];
    if forall i :: IsRole(u, todo[0], i) ==> i + 1 == |u.roles| {
      forall i | tail != [] && IsRole(u, tail[0], i) ensures i == 0 {
        assert IsRole(u, todo[1], i);
        assert i > 0 ==> IsRole(u, todo[0], i - 1);
      }
    }
  }

  lemma WholeAppend(u: GlobalUser, first: seq<Request>, second: seq<Request>)
    requires Whole(u, first) && Whole(u, second)
    ensures Whole(u, first + second)
  {
    var all := first + second;
    forall k, i | 0 <= k < |all| && IsRole(u, all[k], i) && i + 1 < |u.roles|
      ensures k + 1 < |all| && all[k + 1] == RoleRequest(u, all[k].namespace, i + 1)
    {
      if k < |first| { assert all[k] == first[k]; } else { assert all[k] == second[k - |first|]; }
    }
    forall k, i | 0 < k < |all| && IsRole(u, all[k], i) && i > 0
      ensures all[k - 1] == RoleRequest(u, all[k].namespace, i - 1)
    {
      if k < |first| { assert all[k] == first[k]; } else { assert all[k] == second[k - |first|]; }
    }
  }

  lemma RolesWhole(u: GlobalUser, user: string, roles: seq<string>, level: string, namespace: string)
    requires Racing(u) && DashFree(user)
    requires user == u.name ==> roles == u.roles && level == GLOBAL_LEVEL
    ensures Whole(u, RoleRequests(user, roles, level, namespace))
  {
    var todo := RoleRequests(user, roles, level, namespace);
    forall k, i | 0 <= k < |todo| && IsRole(u, todo[k], i) ensures user == u.name && i == k {
      assert todo[k] == Request(namespace, user, roles[k], level);
      assert u.roles[i] == u.roles[k];
    }
    forall r | r in todo ensures Clean(u, r) {
      var k :| 0 <= k < |todo| && todo[k] == r;
    }
    if user == u.name {
      assert forall k :: 0 <= k < |todo| ==> todo[k] == RoleRequest(u, namespace, k);
    }
  }

  lemma {:induction false} FlattenWhole(u: GlobalUser, users: seq<User>, level: string, namespace: string)
    requires Racing(u)
    requires forall v <- users :: DashFree(v.name) && (v.name == u.name ==> v.roles == u.roles && level == GLOBAL_LEVEL)
    ensures Whole(u, Flatten(users, level, namespace))
  {
    if users != [] {
      FlattenWhole(u, users[1..], level, namespace);
      RolesWhole(u, users[0].name, users[0].roles, level, namespace);
      WholeAppend(u, RoleRequests(users[0].name, users[0].roles, level, namespace),
                  Flatten(users[1..], level, namespace));
    }
  }

  ghost predicate GlobalsFit(globals: seq<User>, u: GlobalUser) {
    forall v <- globals :: DashFree(v.name) && (v.name == u.name ==> v.roles == u.roles)
  }

  lemma WantedWhole(u: GlobalUser, org: Org, space: Space, globals: seq<User>)
    requires Racing(u) && OrgAvoids(org, u) && space in org.spaces && GlobalsFit(globals, u)
    ensures Whole(u, Wanted(org, space, globals))
  {
    var namespace := NamespaceOf(org, space);
    FlattenWhole(u, globals, GLOBAL_LEVEL, namespace);
    FlattenWhole(u, org.users, OTHER_LEVEL, namespace);
    FlattenWhole(u, space.users, OTHER_LEVEL, namespace);
    WholeAppend(u, Flatten(globals, GLOBAL_LEVEL, namespace), Flatten(org.users, OTHER_LEVEL, namespace));
    WholeAppend(u, Flatten(globals, GLOBAL_LEVEL, namespace) + Flatten(org.users, OTHER_LEVEL, namespace),
                Flatten(space.users, OTHER_LEVEL, namespace));
  }

  lemma {:induction false} UserRequestsWhole(u: GlobalUser, g: GlobalUser, names: seq<string>)
    requires Racing(u) && UserFits(g, u)
    ensures Whole(u, UserRequests(g, names))
  {
    if names != [] {
      UserRequestsWhole(u, g, names[1..]);
      RolesWhole(u, g.name, g.roles, GLOBAL_LEVEL, names[0]);
      WholeAppend(u, RoleRequests(g.name, g.roles, GLOBAL_LEVEL, names[0]), UserRequests(g, names[1..]));
    }
  }

  // ---- The state of the race ----

  function TodoOf(s: State, o: Owner): seq<Request> {
    match o
    case ByOrg => if s.org.OrgGranting? then s.org.todo else []
    case ByUser => if s.user.UserGranting? then s.user.todo else []
  }

  function PlaceOf(s: State, o: Owner): string {
    match o
    case ByOrg => if s.org.OrgGranting? then s.org.cluster else ""
    case ByUser => if s.user.UserGranting? then s.user.cluster else ""
  }

  /** The worker's next call creates role `i` of the user in this namespace. */
  ghost predicate At(s: State, o: Owner, u: GlobalUser, cluster: string, namespace: string, i: int) {
    && 0 <= i < |u.roles| && TodoOf(s, o) != [] && PlaceOf(s, o) == cluster
    && TodoOf(s, o)[0] == RoleRequest(u, namespace, i)
  }

  function RoleKey(u: GlobalUser, namespace: string, i: nat): Key
    requires i < |u.roles|
  {
    Key(namespace, Join(u.name, u.roles[i]))
  }

  ghost predicate Has(s: State, u: GlobalUser, cluster: string, namespace: string, i: int) {
    0 <= i < |u.roles| && cluster in s.stores && RoleKey(u, namespace, i) in s.stores[cluster].bindings
  }

  /** Role `i` is there and this worker created it. */
  ghost predicate HasFrom(s: State, o: Owner, u: GlobalUser, cluster: string, namespace: string, i: int) {
    && Has(s, u, cluster, namespace, i)
    && (cluster, RoleKey(u, namespace, i)) in s.owners && s.owners[(cluster, RoleKey(u, namespace, i))] == o
  }

  /** A worker in the middle of a block created the previous role, and the next one is missing. */
  ghost predicate MiddlesFit(s: State, u: GlobalUser) {
    forall o, cluster, namespace, i :: At(s, o, u, cluster, namespace, i) && i > 0 ==>
      HasFrom(s, o, u, cluster, namespace, i - 1) && !Has(s, u, cluster, namespace, i)
  }

  /** Every role has a creator. */
  ghost predicate AllOwned(s: State, u: GlobalUser) {
    forall cluster, namespace, i :: Has(s, u, cluster, namespace, i) ==>
      HasFrom(s, ByOrg, u, cluster, namespace, i) || HasFrom(s, ByUser, u, cluster, namespace, i)
  }

  /** A role is there only after the previous one, from the same creator. */
  ghost predicate InOrder(s: State, u: GlobalUser) {
    forall o, cluster, namespace, i :: HasFrom(s, o, u, cluster, namespace, i) && i > 0 ==>
      HasFrom(s, o, u, cluster, namespace, i - 1)
  }

  /** Where roles are missing, the creator of the last one is about to create the next. */
  ghost predicate GapsAttended(s: State, u: GlobalUser) {
    forall o, cluster, namespace, i ::
      HasFrom(s, o, u, cluster, namespace, i) && i + 1 < |u.roles| && !Has(s, u, cluster, namespace, i + 1) ==>
        At(s, o, u, cluster, namespace, i + 1)
  }

  ghost predicate Race(s: State, u: GlobalUser) {
    && (forall o :: Blocks(u, TodoOf(s, o)))
    && (forall cluster <- s.stores :: WellPlaced(s.stores[cluster]))
    && MiddlesFit(s, u) && AllOwned(s, u) && InOrder(s, u) && GapsAttended(s, u)
  }

  /** Everything the workers have read concerns other users, or this version of the user. */
  ghost predicate ReadsFit(s: State, u: GlobalUser) {
    && (forall org <- s.orgs :: OrgAvoids(org, u))
    && (forall g <- s.users :: UserFits(g, u))
    && (match s.org
        case OrgIdle => true
        case OrgListing(org) => OrgAvoids(org, u)
        case OrgLooping(org, globals, spaces) =>
          OrgAvoids(org, u) && GlobalsFit(globals, u) && (forall space <- spaces :: space in org.spaces)
        case OrgGranting(org, globals, spaces, cluster, _) =>
          cluster in s.stores && OrgAvoids(org, u) && GlobalsFit(globals, u) && (forall space <- spaces :: space in org.spaces)
        case OrgErasing(_, _) => false)
    && (match s.user
        case UserIdle => true
        case UserLooping(g, _) => UserFits(g, u)
        case UserGranting(g, _, cluster, _) => cluster in s.stores && UserFits(g, u)
        case _ => false)
  }

  ghost predicate Good(s: State, u: GlobalUser) {
    Race(s, u) && ReadsFit(s, u)
  }

  // ---- One Create call ----

  /** From `s` to `s'` worker `o` made its next Create call. */
  ghost predicate Created(s: State, s': State, o: Owner) {
    && TodoOf(s, o) != [] && PlaceOf(s, o) in s.stores
    && (var cluster, r := PlaceOf(s, o), TodoOf(s, o)[0];
        && s'.stores == AfterCreate(s, cluster, r, Served, o).stores
        && s'.owners == AfterCreate(s, cluster, r, Served, o).owners
        && (if Stored(s, cluster, r, Served).status == Ok
            then TodoOf(s', o) == TodoOf(s, o)[1..] && PlaceOf(s', o) == cluster
            else TodoOf(s', o) == []))
    && (forall p :: p != o ==> TodoOf(s', p) == TodoOf(s, p) && PlaceOf(s', p) == PlaceOf(s, p))
  }

  /** A request for another user never touches the user's keys. */
  lemma OtherKeysApart(u: GlobalUser, r: Request, namespace: string, i: nat)
    requires Racing(u) && DashFree(r.user) && i < |u.roles|
    ensures KeyOf(r) == RoleKey(u, namespace, i) <==> r.user == u.name && r.role == u.roles[i] && r.namespace == namespace
  {
    if KeyOf(r) == RoleKey(u, namespace, i) {
      JoinInjective(r.user, r.role, u.name, u.roles[i]);
    }
  }

  lemma CreatedBlocks(s: State, s': State, o: Owner, u: GlobalUser)
    requires Racing(u) && Race(s, u) && Created(s, s', o)
    ensures forall p :: Blocks(u, TodoOf(s', p))
    ensures forall cluster <- s'.stores :: WellPlaced(s'.stores[cluster])
  {
    BlocksTail(u, TodoOf(s, o));
  }

  /** The call succeeds, and it is for role `i` of the user in this namespace. */
  ghost predicate Adds(s: State, o: Owner, u: GlobalUser, cluster: string, namespace: string, i: int)
    requires TodoOf(s, o) != [] && PlaceOf(s, o) in s.stores
  {
    && At(s, o, u, cluster, namespace, i)
    && Stored(s, PlaceOf(s, o), TodoOf(s, o)[0], Served).status == Ok
  }

  /** The call adds at most its own key, under its own name. */
  lemma CreatedAdds(s: State, s': State, o: Owner, u: GlobalUser, cluster: string, namespace: string, i: int)
    requires Racing(u) && Race(s, u) && Created(s, s', o)
    ensures Has(s', u, cluster, namespace, i) <==> Has(s, u, cluster, namespace, i) || Adds(s, o, u, cluster, namespace, i)
    ensures forall p :: HasFrom(s', p, u, cluster, namespace, i)
                        <==> HasFrom(s, p, u, cluster, namespace, i) || (p == o && Adds(s, o, u, cluster, namespace, i))
    ensures Adds(s, o, u, cluster, namespace, i) ==> !Has(s, u, cluster, namespace, i)
  {
    var r := TodoOf(s, o)[0];
    if 0 <= i < |u.roles| {
      assert Clean(u, r);
      OtherKeysApart(u, r, namespace, i);
      if cluster != PlaceOf(s, o) || r != RoleRequest(u, namespace, i) {
        CreateElsewhere(s, PlaceOf(s, o), r, o, cluster, RoleKey(u, namespace, i));
      }
    }
  }

  /** A Create call changes one key of one cluster at most. */
  lemma CreateElsewhere(s: State, place: string, r: Request, o: Owner, cluster: string, key: Key)
    requires place in s.stores && (cluster != place || key != KeyOf(r))
    ensures var s' := AfterCreate(s, place, r, Served, o);
            && s'.stores.Keys == s.stores.Keys
            && (cluster in s.stores ==> (key in s'.stores[cluster].bindings <==> key in s.stores[cluster].bindings))
            && ((cluster, key) in s'.owners <==> (cluster, key) in s.owners)
            && ((cluster, key) in s.owners ==> s'.owners[(cluster, key)] == s.owners[(cluster, key)])
  {
  }

  lemma HasBefore(s: State, u: GlobalUser, cluster: string, namespace: string, i: int)
    requires AllOwned(s, u) && InOrder(s, u) && i > 0
    ensures Has(s, u, cluster, namespace, i) ==> Has(s, u, cluster, namespace, i - 1)
  {
    assert forall o :: HasFrom(s, o, u, cluster, namespace, i) ==> HasFrom(s, o, u, cluster, namespace, i - 1);
  }

  /** Nothing stops the next role of a block. */
  lemma NextRoleSucceeds(s: State, o: Owner, u: GlobalUser, cluster: string, namespace: string, i: int)
    requires Race(s, u) && TodoOf(s, o) != [] && PlaceOf(s, o) in s.stores
    ensures At(s, o, u, cluster, namespace, i) && Has(s, u, cluster, namespace, i - 1) && !Has(s, u, cluster, namespace, i)
            ==> Adds(s, o, u, cluster, namespace, i)
  {
    assert Has(s, u, cluster, namespace, i - 1) ==> namespace in s.stores[cluster].namespaces;
  }

  lemma MiddlesAfter(s: State, s': State, o: Owner, u: GlobalUser)
    requires Racing(u) && Race(s, u) && Created(s, s', o)
    ensures MiddlesFit(s', u)
  {
    forall p, c, n, i | At(s', p, u, c, n, i) && i > 0
      ensures HasFrom(s', p, u, c, n, i - 1) && !Has(s', u, c, n, i)
    {
      CreatedAdds(s, s', o, u, c, n, i - 1);
      CreatedAdds(s, s', o, u, c, n, i);
      if p == o {
        var todo := TodoOf(s, o);
        assert TodoOf(s', o) == todo[1..] && IsRole(u, todo[1], i);
        assert At(s, o, u, c, n, i - 1);
        HasBefore(s, u, c, n, i);
      } else {
        assert At(s, p, u, c, n, i);
        assert At(s, o, u, c, n, i) ==> HasFrom(s, o, u, c, n, i - 1);
      }
    }
  }

  lemma OrderAfter(s: State, s': State, o: Owner, u: GlobalUser)
    requires Racing(u) && Race(s, u) && Created(s, s', o)
    ensures AllOwned(s', u) && InOrder(s', u)
  {
    forall c, n, i | Has(s', u, c, n, i)
      ensures HasFrom(s', ByOrg, u, c, n, i) || HasFrom(s', ByUser, u, c, n, i)
    {
      CreatedAdds(s, s', o, u, c, n, i);
    }
    forall p, c, n, i | HasFrom(s', p, u, c, n, i) && i > 0 ensures HasFrom(s', p, u, c, n, i - 1) {
      CreatedAdds(s, s', o, u, c, n, i);
      CreatedAdds(s, s', o, u, c, n, i - 1);
      assert HasFrom(s, p, u, c, n, i - 1);
    }
  }

  lemma GapsAfter(s: State, s': State, o: Owner, u: GlobalUser)
    requires Racing(u) && Race(s, u) && Created(s, s', o)
    ensures GapsAttended(s', u)
  {
    forall p, c, n, i | HasFrom(s', p, u, c, n, i) && i + 1 < |u.roles| && !Has(s', u, c, n, i + 1)
      ensures At(s', p, u, c, n, i + 1)
    {
      CreatedAdds(s, s', o, u, c, n, i);
      CreatedAdds(s, s', o, u, c, n, i + 1);
      NextRoleSucceeds(s, o, u, c, n, i + 1);
      if HasFrom(s, p, u, c, n, i) {
        assert At(s, p, u, c, n, i + 1);
      } else {
        var todo := TodoOf(s, o);
        assert IsRole(u, todo[0], i) && todo[1] == RoleRequest(u, n, i + 1);
      }
    }
  }

  lemma CreatedKeepsRace(s: State, s': State, o: Owner, u: GlobalUser)
    requires Racing(u) && Race(s, u) && Created(s, s', o)
    ensures Race(s', u)
  {
    CreatedBlocks(s, s', o, u);
    MiddlesAfter(s, s', o, u);
    OrderAfter(s, s', o, u);
    GapsAfter(s, s', o, u);
  }

  // ---- All other steps ----

  /** No binding changed; a worker's list is the same as before, or gone after it was used up, or new
      and starting with a whole block. */
  ghost predicate Resumed(s: State, s': State, u: GlobalUser) {
    && s'.owners == s.owners && s'.stores.Keys == s.stores.Keys
    && (forall cluster <- s.stores :: s'.stores[cluster].bindings == s.stores[cluster].bindings
                                      && WellPlaced(s'.stores[cluster]))
    && (forall o :: || (TodoOf(s', o) == TodoOf(s, o) && PlaceOf(s', o) == PlaceOf(s, o))
                    || (TodoOf(s, o) == [] && Whole(u, TodoOf(s', o))))
  }

  lemma ResumedKeepsRace(s: State, s': State, u: GlobalUser)
    requires Race(s, u) && Resumed(s, s', u)
    ensures Race(s', u)
  {
    forall o, c, n, i ensures HasFrom(s', o, u, c, n, i) <==> HasFrom(s, o, u, c, n, i)
      ensures Has(s', u, c, n, i) <==> Has(s, u, c, n, i)
    {
    }
    forall o, c, n, i | At(s', o, u, c, n, i) && i > 0 ensures At(s, o, u, c, n, i) {
      assert IsRole(u, TodoOf(s', o)[0], i);
    }
    forall o, c, n, i | At(s, o, u, c, n, i) ensures At(s', o, u, c, n, i) {
    }
  }

  lemma OrgLoopKeepsRace(s: State, u: GlobalUser)
    requires Racing(u) && Good(s, u) && s.org.OrgLooping?
    ensures Good(OrgCalls(s, Served), u)
  {
    var s' := OrgCalls(s, Served);
    if s.org.spaces != [] && s.org.spaces[0].clusterName in s.stores {
      assert s.org.spaces[0] in s.org.spaces;
      WantedWhole(u, s.org.org, s.org.spaces[0], s.org.globals);
    }
    ResumedKeepsRace(s, s', u);
  }

  lemma OrgGrantKeepsRace(s: State, u: GlobalUser)
    requires Racing(u) && Good(s, u) && s.org.OrgGranting?
    ensures Good(OrgCalls(s, Served), u)
  {
    var s' := OrgCalls(s, Served);
    if s.org.todo != [] {
      assert Created(s, s', ByOrg);
      CreatedKeepsRace(s, s', ByOrg, u);
    } else {
      ResumedKeepsRace(s, s', u);
    }
  }

  lemma OrgCallsKeepRace(s: State, u: GlobalUser)
    requires Racing(u) && Good(s, u)
    ensures Good(OrgCalls(s, Served), u)
  {
    if s.org.OrgLooping? {
      OrgLoopKeepsRace(s, u);
    } else if s.org.OrgGranting? {
      OrgGrantKeepsRace(s, u);
    }
  }

  lemma UserCallsKeepRace(s: State, u: GlobalUser)
    requires Racing(u) && Good(s, u)
    ensures Good(UserCalls(s, Served), u)
  {
    var s' := UserCalls(s, Served);
    match s.user {
      case UserLooping(_, _) => ResumedKeepsRace(s, s', u);
      case UserGranting(g, clusters, cluster, todo) =>
        if todo != [] {
          assert Created(s, s', ByUser);
          CreatedKeepsRace(s, s', ByUser, u);
        } else {
          ResumedKeepsRace(s, s', u);
        }
      case _ =>
    }
  }

  lemma GlobalsFitItems(items: seq<GlobalUser>, users: set<GlobalUser>, u: GlobalUser)
    requires forall g <- items :: g in users
    requires forall g <- users :: UserFits(g, u)
    ensures GlobalsFit(AsUsers(items), u)
  {
    var globals := AsUsers(items);
    forall v | v in globals ensures DashFree(v.name) && (v.name == u.name ==> v.roles == u.roles) {
      var i :| 0 <= i < |globals| && globals[i] == v;
      assert items[i] in items;
    }
  }

  lemma OrgListKeepsGood(s: State, items: seq<GlobalUser>, u: GlobalUser)
    requires Racing(u) && Good(s, u)
    ensures Good(Step(s, OrgList(items)), u)
  {
    var s' := Step(s, OrgList(items));
    if s' != s { GlobalsFitItems(items, s.users, u); }
    ResumedKeepsRace(s, s', u);
  }

  lemma UserListKeepsGood(s: State, cluster: string, names: seq<string>, u: GlobalUser)
    requires Racing(u) && Good(s, u)
    ensures Good(Step(s, UserList(cluster, names)), u)
  {
    var s' := Step(s, UserList(cluster, names));
    if s' != s { UserRequestsWhole(u, s.user.user, names); }
    ResumedKeepsRace(s, s', u);
  }

  lemma ReadKeepsGood(s: State, a: Action, u: GlobalUser)
    requires Racing(u) && Good(s, u) && Quiet(a, u)
    requires a.PutOrg? || a.PutUser? || a.OrgGet? || a.UserGet?
    ensures Good(Step(s, a), u)
  {
    ResumedKeepsRace(s, Step(s, a), u);
  }

  lemma StepKeepsGood(s: State, a: Action, u: GlobalUser)
    requires Racing(u) && Good(s, u) && Quiet(a, u)
    ensures Good(Step(s, a), u)
  {
    match a {
      case OrgCall(_) => OrgCallsKeepRace(s, u);
      case UserCall(_) => UserCallsKeepRace(s, u);
      case OrgList(items) => OrgListKeepsGood(s, items, u);
      case UserList(cluster, names) => UserListKeepsGood(s, cluster, names, u);
      case _ => ReadKeepsGood(s, a, u);
    }
  }

  lemma {:induction false} RunKeepsGood(s: State, actions: seq<Action>, u: GlobalUser)
    requires Racing(u) && Good(s, u) && forall a <- actions :: Quiet(a, u)
    ensures Good(Run(s, actions), u)
    decreases |actions|
  {
    if actions != [] {
      assert actions[0] in actions;
      StepKeepsGood(s, actions[0], u);
      RunKeepsGood(Step(s, actions[0]), actions[1..], u);
    }
  }

  /** The race is about to start: both workers are idle and the user has no binding yet. */
  ghost predicate AtTheStart(s: State, u: GlobalUser) {
    && s.org.OrgIdle? && s.user.UserIdle?
    && (forall org <- s.orgs :: OrgAvoids(org, u)) && (forall g <- s.users :: UserFits(g, u))
    && (forall cluster <- s.stores :: WellPlaced(s.stores[cluster]))
    && (forall cluster, namespace, i :: !Has(s, u, cluster, namespace, i))
  }

  /** Role `i` comes from whoever created role 0. */
  lemma {:induction false} SameCreator(s: State, u: GlobalUser, o: Owner, cluster: string, namespace: string, i: int)
    requires InOrder(s, u) && HasFrom(s, o, u, cluster, namespace, i)
    ensures HasFrom(s, o, u, cluster, namespace, 0)
    ensures forall j :: 0 <= j <= i ==> HasFrom(s, o, u, cluster, namespace, j)
    decreases i
  {
    if i > 0 {
      SameCreator(s, u, o, cluster, namespace, i - 1);
    }
  }

  /** One worker created all of the user's bindings in the namespace; they are a prefix of the roles;
      unless that prefix is everything, the worker's very next call extends it. */
  ghost predicate WonBy(s: State, winner: Owner, u: GlobalUser, cluster: string, namespace: string) {
    && (forall j :: Has(s, u, cluster, namespace, j) ==> HasFrom(s, winner, u, cluster, namespace, j))
    && (forall j :: Has(s, u, cluster, namespace, j) && j > 0 ==> Has(s, u, cluster, namespace, j - 1))
    && (forall j :: Has(s, u, cluster, namespace, j) && j + 1 < |u.roles| && !Has(s, u, cluster, namespace, j + 1) ==>
          At(s, winner, u, cluster, namespace, j + 1))
  }

  /** The worker created every one of the user's roles in the namespace. */
  ghost predicate CreatedAll(s: State, winner: Owner, u: GlobalUser, cluster: string, namespace: string) {
    forall j :: 0 <= j < |u.roles| ==> HasFrom(s, winner, u, cluster, namespace, j)
  }

  lemma RaceHasWinner(s: State, winner: Owner, u: GlobalUser, cluster: string, namespace: string)
    requires Race(s, u) && HasFrom(s, winner, u, cluster, namespace, 0)
    ensures WonBy(s, winner, u, cluster, namespace)
  {
    forall j | Has(s, u, cluster, namespace, j)
      ensures HasFrom(s, winner, u, cluster, namespace, j)
      ensures j > 0 ==> Has(s, u, cluster, namespace, j - 1)
    {
      if j > 0 { HasBefore(s, u, cluster, namespace, j); }
      var other := if HasFrom(s, ByOrg, u, cluster, namespace, j) then ByOrg else ByUser;
      SameCreator(s, u, other, cluster, namespace, j);
    }
  }

  lemma GoodHasWinner(s: State, u: GlobalUser, cluster: string, namespace: string, i: int)
    requires Race(s, u) && Has(s, u, cluster, namespace, i)
    ensures exists winner :: Won(s, winner, u, cluster, namespace)
  {
    var winner := if HasFrom(s, ByOrg, u, cluster, namespace, i) then ByOrg else ByUser;
    SameCreator(s, u, winner, cluster, namespace, i);
    RaceHasWinner(s, winner, u, cluster, namespace);
    if !s.org.OrgGranting? && !s.user.UserGranting? {
      NoGaps(s, u, winner, cluster, namespace, |u.roles| - 1);
    }
    assert Won(s, winner, u, cluster, namespace);
  }

  /** The namespace is the winner's, and once no worker is in the middle of granting it is complete. */
  ghost predicate Won(s: State, winner: Owner, u: GlobalUser, cluster: string, namespace: string) {
    && WonBy(s, winner, u, cluster, namespace)
    && (!s.org.OrgGranting? && !s.user.UserGranting? ==> CreatedAll(s, winner, u, cluster, namespace))
  }

  /** Bindings come from the workers' calls only, and the record of owners says from whose. */
  lemma OwnersRecordCreators(s: State, a: Action, cluster: string, key: Key)
    requires cluster in Step(s, a).stores && key in Step(s, a).stores[cluster].bindings
    requires cluster in s.stores ==> key !in s.stores[cluster].bindings
    ensures a.OrgCall? || a.UserCall?
    ensures (cluster, key) in Step(s, a).owners
            && Step(s, a).owners[(cluster, key)] == if a.OrgCall? then ByOrg else ByUser
  {
    match a {
      case OrgCall(_) =>
      case UserCall(_) =>
      case _ =>
    }
  }

  /** Winner takes all.  In every fault-free, delete-free interleaving, whatever the retries, a
      namespace in which the user has any binding has been won by one worker.  So whenever no worker
      is in the middle of granting, a namespace holds all of the user's roles, from one creator, or
      none of them. */
  lemma WinnerTakesAll(s0: State, actions: seq<Action>, u: GlobalUser, cluster: string, namespace: string, i: int)
    requires Racing(u) && AtTheStart(s0, u) && forall a <- actions :: Quiet(a, u)
    requires Has(Run(s0, actions), u, cluster, namespace, i)
    ensures exists winner :: Won(Run(s0, actions), winner, u, cluster, namespace)
  {
    assert Good(s0, u);
    RunKeepsGood(s0, actions, u);
    GoodHasWinner(Run(s0, actions), u, cluster, namespace, i);
  }

  lemma {:induction false} NoGaps(s: State, u: GlobalUser, o: Owner, cluster: string, namespace: string, i: int)
    requires GapsAttended(s, u) && AllOwned(s, u) && InOrder(s, u)
    requires !s.org.OrgGranting? && !s.user.UserGranting?
    requires HasFrom(s, o, u, cluster, namespace, 0) && 0 <= i < |u.roles|
    ensures forall j :: 0 <= j <= i ==> HasFrom(s, o, u, cluster, namespace, j)
    decreases i
  {
    if i > 0 {
      NoGaps(s, u, o, cluster, namespace, i - 1);
      assert HasFrom(s, o, u, cluster, namespace, i - 1);
      assert !At(s, o, u, cluster, namespace, i);
      assert Has(s, u, cluster, namespace, i);
      var other := if HasFrom(s, ByOrg, u, cluster, namespace, i) then ByOrg else ByUser;
      SameCreator(s, u, other, cluster, namespace, i);
    }
  }
}

/** Global user reconciliation as a function of the clusters, for every order in which Go may range
    over the cluster map and a List call may return its items. */
module GlobalUserSpec {
  import opened Names
  import opened Api
  import opened Grants
  import opened OrgSpec

  /** One turn of the loop over the clusters: the cluster and what its namespace List returns. */
  datatype Visit = Visit(cluster: string, listing: seq<string>)

  /** Namespaces that carry the org label, whatever its value. */
  function CfNamespaces(s: Store): set<string> {
    set name | name in s.namespaces && ORG_LABEL in s.namespaces[name]
  }

  /** The requests for one user over the listed namespaces. */
  function UserRequests(user: GlobalUser, listing: seq<string>): seq<Request> {
    if listing == [] then []
    else RoleRequests(user.name, user.roles, GLOBAL_LEVEL, listing[0]) + UserRequests(user, listing[1..])
  }

  /** A List call changes nothing but may fail. */
  function List(c: Cluster): Answer {
    Call(c, Reply(c.store, Ok))
  }

  function Grant(c: Cluster, user: GlobalUser, listing: seq<string>): SpaceResult {
    var listed := List(c);
    if listed.status != Ok then SpaceResult(listed.cluster, Failed(ListFailed))
    else GrantAll(listed.cluster, UserRequests(user, listing))
  }

  ghost predicate VisitsIn(w: World, visits: seq<Visit>) {
    forall v <- visits :: v.cluster in w
  }

  /** The loop over the clusters; the first error stops it. */
  function ReconcileUser(w: World, user: GlobalUser, visits: seq<Visit>): WorldResult
    requires forall v <- visits :: v.cluster in w
    decreases |visits|
  {
    if visits == [] then WorldResult(w, Done)
    else
      assert visits[0] in visits;
      var r := Grant(w[visits[0].cluster], user, visits[0].listing);
      var w' := w[visits[0].cluster := r.cluster];
      if r.outcome.Failed? then WorldResult(w', r.outcome) else ReconcileUser(w', user, visits[1..])
  }

  /** What the subject index stores for a binding: the name of its first User subject. */
  function FirstUser(subjects: seq<Subject>): seq<string> {
    if subjects == [] then []
    else if subjects[0].kind == USER_KIND then [subjects[0].name]
    else FirstUser(subjects[1..])
  }

  predicate IsGlobalFor(b: RoleBinding, user: string) {
    && ROLE_LEVEL_LABEL in b.labels && b.labels[ROLE_LEVEL_LABEL] == GLOBAL_LEVEL
    && user in FirstUser(b.subjects)
  }

  /** What the deletion's List matches: global level, and the user in the subject index. */
  function Matches(s: Store, user: string): set<Key> {
    set key | key in s.bindings && IsGlobalFor(s.bindings[key], user)
  }

  lemma {:induction false} FirstUserExactly(subjects: seq<Subject>, user: string)
    ensures user in FirstUser(subjects)
            <==> exists i :: 0 <= i < |subjects| && subjects[i].kind == "User" && subjects[i].name == user
                             && forall j :: 0 <= j < i ==> subjects[j].kind != "User"
  {
    if subjects != [] && subjects[0].kind != "User" {
      var rest := subjects[1..];
      FirstUserExactly(rest, user);
      if i :| 0 <= i < |rest| && rest[i].kind == "User" && rest[i].name == user
              && forall j :: 0 <= j < i ==> rest[j].kind != "User"
      {
        assert subjects[i + 1] == rest[i] && forall j :: 0 < j < i + 1 ==> subjects[j] == rest[j - 1];
      }
      if i :| 0 <= i < |subjects| && subjects[i].kind == "User" && subjects[i].name == user
              && forall j :: 0 <= j < i ==> subjects[j].kind != "User"
      {
        assert rest[i - 1] == subjects[i] && forall j :: 0 <= j < i - 1 ==> rest[j] == subjects[j + 1];
      }
    }
  }

  /** The binding has level global, and its first User subject has the user's name. */
  ghost predicate GlobalBindingOf(b: RoleBinding, user: string) {
    && "code.cloudfoundry.org/role_level" in b.labels && b.labels["code.cloudfoundry.org/role_level"] == "global"
    && exists i :: 0 <= i < |b.subjects| && b.subjects[i].kind == "User" && b.subjects[i].name == user
                   && forall j :: 0 <= j < i ==> b.subjects[j].kind != "User"
  }

  lemma GlobalForExactly(b: RoleBinding, user: string)
    ensures IsGlobalFor(b, user) <==> GlobalBindingOf(b, user)
  {
    FirstUserExactly(b.subjects, user);
  }

  /** One turn of the deletion loop: the cluster and what its binding List returns. */
  datatype Sweep = Sweep(cluster: string, listing: seq<Key>)

  function DeleteKeys(c: Cluster, keys: seq<Key>): Answer
    decreases |keys|
  {
    if keys == [] then Answer(c, Ok)
    else
      var a := Call(c, RemoveBinding(c.store, keys[0]));
      if a.status != Ok then a else DeleteKeys(a.cluster, keys[1..])
  }

  function Purge(c: Cluster, listing: seq<Key>): SpaceResult {
    var listed := List(c);
    if listed.status != Ok then SpaceResult(listed.cluster, Failed(ListFailed))
    else
      var a := DeleteKeys(listed.cluster, listing);
      SpaceResult(a.cluster, if a.status == Ok then Done else Failed(DeleteFailed(a.status)))
  }

  function DeleteUser(w: World, sweeps: seq<Sweep>): WorldResult
    requires forall v <- sweeps :: v.cluster in w
    decreases |sweeps|
  {
    if sweeps == [] then WorldResult(w, Done)
    else
      assert sweeps[0] in sweeps;
      var r := Purge(w[sweeps[0].cluster], sweeps[0].listing);
      var w' := w[sweeps[0].cluster := r.cluster];
      if r.outcome.Failed? then WorldResult(w', r.outcome) else DeleteUser(w', sweeps[1..])
  }

  function VisitNames(visits: seq<Visit>): seq<string> {
    seq(|visits|, i requires 0 <= i < |visits| => visits[i].cluster)
  }

  function SweepNames(sweeps: seq<Sweep>): seq<string> {
    seq(|sweeps|, i requires 0 <= i < |sweeps| => sweeps[i].cluster)
  }

  /** The visits range over every cluster once, and each listing is a correct List result. */
  ghost predicate ValidVisits(w: World, visits: seq<Visit>) {
    && Enumerates(VisitNames(visits), w.Keys)
    && forall v <- visits :: v.cluster in w && Enumerates(v.listing, CfNamespaces(w[v.cluster].store))
  }

  ghost predicate ValidSweeps(w: World, sweeps: seq<Sweep>, user: string) {
    && Enumerates(SweepNames(sweeps), w.Keys)
    && forall v <- sweeps :: v.cluster in w && Enumerates(v.listing, Matches(w[v.cluster].store, user))
  }

  ghost predicate DistinctRoles(roles: seq<string>) {
    forall i, j :: 0 <= i < j < |roles| ==> roles[i] != roles[j]
  }

  ghost predicate DistinctVisits(visits: seq<Visit>) {
    forall i, j :: 0 <= i < j < |visits| ==> visits[i].cluster != visits[j].cluster
  }

  ghost predicate CorrectListings(w: World, visits: seq<Visit>) {
    forall v <- visits :: v.cluster in w && Enumerates(v.listing, CfNamespaces(w[v.cluster].store))
  }

  function Visited(visits: seq<Visit>): set<string> {
    set v | v in visits :: v.cluster
  }

  ghost predicate DistinctSweeps(sweeps: seq<Sweep>) {
    forall i, j :: 0 <= i < j < |sweeps| ==> sweeps[i].cluster != sweeps[j].cluster
  }

  ghost predicate CorrectSweeps(w: World, sweeps: seq<Sweep>, user: string) {
    forall v <- sweeps :: v.cluster in w && Enumerates(v.listing, Matches(w[v.cluster].store, user))
  }

  function Swept(sweeps: seq<Sweep>): set<string> {
    set v | v in sweeps :: v.cluster
  }

  // ---- Loops that stop part of the way ----

  lemma SplitAt<T>(s: seq<T>, i: nat)
    requires i < |s|
    ensures s[i] in s && s[..i + 1] == s[..i] + [s[i]] && s == s[..i + 1] + s[i + 1..]
  {
  }

  lemma {:induction false} ReconcileUserAppend(w: World, user: GlobalUser, first: seq<Visit>, second: seq<Visit>)
    requires VisitsIn(w, first) && VisitsIn(w, second)
    ensures VisitsIn(w, first + second) && ReconcileUser(w, user, first).world.Keys == w.Keys
    ensures ReconcileUser(w, user, first + second)
            == (var r := ReconcileUser(w, user, first);
                if r.outcome.Failed? then r else ReconcileUser(r.world, user, second))
    decreases |first|
  {
    if first == [] {
      assert first + second == second;
    } else {
      assert first[0] in first && (first + second)[1..] == first[1..] + second;
      var r := Grant(w[first[0].cluster], user, first[0].listing);
      if r.outcome.Done? {
        ReconcileUserAppend(w[first[0].cluster := r.cluster], user, first[1..], second);
      }
    }
  }

  /** One more turn of the loop, after `i` turns that led to `before`. */
  lemma VisitStep(w: World, user: GlobalUser, visits: seq<Visit>, i: nat, before: World)
    requires VisitsIn(w, visits) && i < |visits|
    requires VisitsIn(w, visits[..i]) && ReconcileUser(w, user, visits[..i]) == WorldResult(before, Done)
    ensures before.Keys == w.Keys && VisitsIn(w, visits[..i + 1])
    ensures var v := visits[i];
            v.cluster in before
            && var r := Grant(before[v.cluster], user, v.listing);
            var next := WorldResult(before[v.cluster := r.cluster], r.outcome);
            && ReconcileUser(w, user, visits[..i + 1]) == next
            && (r.outcome.Failed? ==> ReconcileUser(w, user, visits) == next)
  {
    SplitAt(visits, i);
    ReconcileUserAppend(w, user, visits[..i], [visits[i]]);
    assert [visits[i]][0] == visits[i] && [visits[i]][1..] == [];
    ReconcileUserAppend(w, user, visits[..i + 1], visits[i + 1..]);
  }

  ghost predicate SweepsIn(w: World, sweeps: seq<Sweep>) {
    forall v <- sweeps :: v.cluster in w
  }

  lemma {:induction false} DeleteUserAppend(w: World, first: seq<Sweep>, second: seq<Sweep>)
    requires SweepsIn(w, first) && SweepsIn(w, second)
    ensures SweepsIn(w, first + second) && DeleteUser(w, first).world.Keys == w.Keys
    ensures DeleteUser(w, first + second)
            == (var r := DeleteUser(w, first);
                if r.outcome.Failed? then r else DeleteUser(r.world, second))
    decreases |first|
  {
    if first == [] {
      assert first + second == second;
    } else {
      assert first[0] in first && (first + second)[1..] == first[1..] + second;
      var r := Purge(w[first[0].cluster], first[0].listing);
      if r.outcome.Done? {
        DeleteUserAppend(w[first[0].cluster := r.cluster], first[1..], second);
      }
    }
  }

  lemma SweepStep(w: World, sweeps: seq<Sweep>, i: nat, before: World)
    requires SweepsIn(w, sweeps) && i < |sweeps|
    requires SweepsIn(w, sweeps[..i]) && DeleteUser(w, sweeps[..i]) == WorldResult(before, Done)
    ensures before.Keys == w.Keys && SweepsIn(w, sweeps[..i + 1])
    ensures var v := sweeps[i];
            v.cluster in before
            && var r := Purge(before[v.cluster], v.listing);
            var next := WorldResult(before[v.cluster := r.cluster], r.outcome);
            && DeleteUser(w, sweeps[..i + 1]) == next
            && (r.outcome.Failed? ==> DeleteUser(w, sweeps) == next)
  {
    SplitAt(sweeps, i);
    DeleteUserAppend(w, sweeps[..i], [sweeps[i]]);
    assert [sweeps[i]][0] == sweeps[i] && [sweeps[i]][1..] == [];
    DeleteUserAppend(w, sweeps[..i + 1], sweeps[i + 1..]);
  }

  /** The loop has turned `i` times without an error; the clusters are now `now`. */
  ghost predicate VisitedSoFar(w: World, user: GlobalUser, visits: seq<Visit>, range: seq<string>, i: nat, now: World) {
    && i <= |range| && VisitNames(visits) == range && ValidVisits(w, visits) && now.Keys == w.Keys
    && VisitsIn(w, visits[..i]) && ReconcileUser(w, user, visits[..i]) == WorldResult(now, Done)
    && forall k :: i <= k < |range| ==> range[k] in w && now[range[k]] == w[range[k]]
  }

  /** One more turn, with the listing it got. */
  lemma VisitAdvance(w: World, user: GlobalUser, visits: seq<Visit>, range: seq<string>, i: nat, now: World, listing: seq<string>)
    requires VisitedSoFar(w, user, visits, range, i, now) && i < |range| && range[i] in w
    requires Enumerates(listing, CfNamespaces(w[range[i]].store))
    ensures var visits' := visits[i := Visit(range[i], listing)];
            var r := Grant(now[range[i]], user, listing);
            var now' := now[range[i] := r.cluster];
            && ValidVisits(w, visits') && VisitsIn(w, visits')
            && (r.outcome.Done? ==> VisitedSoFar(w, user, visits', range, i + 1, now'))
            && (r.outcome.Failed? ==> ReconcileUser(w, user, visits') == WorldResult(now', r.outcome))
  {
    var visits' := visits[i := Visit(range[i], listing)];
    assert visits[i].cluster == VisitNames(visits)[i];
    assert VisitNames(visits') == range;
    forall v | v in visits' ensures v.cluster in w {
      assert v == visits'[i] || v in visits;
    }
    assert visits'[..i] == visits[..i];
    VisitStep(w, user, visits', i, now);
  }

  /** The same turn, told by what it left behind: only its own cluster has changed. */
  lemma VisitTurn(w: World, user: GlobalUser, visits: seq<Visit>, range: seq<string>, i: nat,
                  now: World, listing: seq<string>, after: World, outcome: Outcome)
    requires VisitedSoFar(w, user, visits, range, i, now) && i < |range| && range[i] in w
    requires Enumerates(listing, CfNamespaces(now[range[i]].store))
    requires after.Keys == now.Keys && forall name <- now :: name != range[i] ==> after[name] == now[name]
    requires SpaceResult(after[range[i]], outcome) == Grant(now[range[i]], user, listing)
    ensures var visits' := visits[i := Visit(range[i], listing)];
            && ValidVisits(w, visits') && VisitsIn(w, visits')
            && (outcome.Done? ==> VisitedSoFar(w, user, visits', range, i + 1, after))
            && (outcome.Failed? ==> ReconcileUser(w, user, visits') == WorldResult(after, outcome))
  {
    OneClusterChanged(now, after, range[i]);
    VisitAdvance(w, user, visits, range, i, now, listing);
  }

  lemma VisitedAll(w: World, user: GlobalUser, visits: seq<Visit>, range: seq<string>, now: World)
    requires VisitedSoFar(w, user, visits, range, |range|, now)
    ensures ValidVisits(w, visits) && ReconcileUser(w, user, visits) == WorldResult(now, Done)
  {
    assert |VisitNames(visits)| == |visits|;
    assert visits[..|range|] == visits;
  }

  /** The loop has turned `i` times without an error; the clusters are now `now`. */
  ghost predicate SweptSoFar(w: World, user: string, sweeps: seq<Sweep>, range: seq<string>, i: nat, now: World) {
    && i <= |range| && SweepNames(sweeps) == range && ValidSweeps(w, sweeps, user) && now.Keys == w.Keys
    && SweepsIn(w, sweeps[..i]) && DeleteUser(w, sweeps[..i]) == WorldResult(now, Done)
    && forall k :: i <= k < |range| ==> range[k] in w && now[range[k]] == w[range[k]]
  }

  /** One more turn, with the listing it got. */
  lemma SweepAdvance(w: World, user: string, sweeps: seq<Sweep>, range: seq<string>, i: nat, now: World, listing: seq<Key>)
    requires SweptSoFar(w, user, sweeps, range, i, now) && i < |range| && range[i] in w
    requires Enumerates(listing, Matches(w[range[i]].store, user))
    ensures var sweeps' := sweeps[i := Sweep(range[i], listing)];
            var r := Purge(now[range[i]], listing);
            var now' := now[range[i] := r.cluster];
            && ValidSweeps(w, sweeps', user) && SweepsIn(w, sweeps')
            && (r.outcome.Done? ==> SweptSoFar(w, user, sweeps', range, i + 1, now'))
            && (r.outcome.Failed? ==> DeleteUser(w, sweeps') == WorldResult(now', r.outcome))
  {
    var sweeps' := sweeps[i := Sweep(range[i], listing)];
    assert sweeps[i].cluster == SweepNames(sweeps)[i];
    assert SweepNames(sweeps') == range;
    forall v | v in sweeps' ensures v.cluster in w {
      assert v == sweeps'[i] || v in sweeps;
    }
    assert sweeps'[..i] == sweeps[..i];
    SweepStep(w, sweeps', i, now);
  }

  lemma SweepTurn(w: World, user: string, sweeps: seq<Sweep>, range: seq<string>, i: nat,
                  now: World, listing: seq<Key>, after: World, outcome: Outcome)
    requires SweptSoFar(w, user, sweeps, range, i, now) && i < |range| && range[i] in w
    requires Enumerates(listing, Matches(now[range[i]].store, user))
    requires after.Keys == now.Keys && forall name <- now :: name != range[i] ==> after[name] == now[name]
    requires SpaceResult(after[range[i]], outcome) == Purge(now[range[i]], listing)
    ensures var sweeps' := sweeps[i := Sweep(range[i], listing)];
            && ValidSweeps(w, sweeps', user) && SweepsIn(w, sweeps')
            && (outcome.Done? ==> SweptSoFar(w, user, sweeps', range, i + 1, after))
            && (outcome.Failed? ==> DeleteUser(w, sweeps') == WorldResult(after, outcome))
  {
    OneClusterChanged(now, after, range[i]);
    SweepAdvance(w, user, sweeps, range, i, now, listing);
  }

  lemma SweptAll(w: World, user: string, sweeps: seq<Sweep>, range: seq<string>, now: World)
    requires SweptSoFar(w, user, sweeps, range, |range|, now)
    ensures ValidSweeps(w, sweeps, user) && DeleteUser(w, sweeps) == WorldResult(now, Done)
  {
    assert |SweepNames(sweeps)| == |sweeps|;
    assert sweeps[..|range|] == sweeps;
  }
}

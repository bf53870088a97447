/** The generated deep copies.  A Go slice is an array reference that may be nil; a Go struct is a
    value that holds such references.  Object metadata is a plain value here. */
module DeepCopy {

  datatype User = User(name: string, roles: array?<string>)
  datatype Space = Space(name: string, clusterName: string, users: array?<User>)
  datatype OrgSpec = OrgSpec(users: array?<User>, spaces: array?<Space>)
  datatype Org = Org(meta: string, spec: OrgSpec)
  datatype OrgList = OrgList(meta: string, items: array?<Org>)

  // ---- What a struct stands for: nil-ness, lengths and contents at every depth ----

  datatype Slice<T> = Nil | Elements(elements: seq<T>)
  datatype UserValue = UserValue(name: string, roles: Slice<string>)
  datatype SpaceValue = SpaceValue(name: string, clusterName: string, users: Slice<UserValue>)
  datatype OrgValue = OrgValue(meta: string, users: Slice<UserValue>, spaces: Slice<SpaceValue>)
  datatype OrgListValue = OrgListValue(meta: string, items: Slice<OrgValue>)

  /** The arrays a struct reaches, nested as the struct nests them: those of this level, and all of
      them from here down. */
  datatype Tree = Tree(here: set<object>, all: set<object>, kids: seq<Tree>)

  /** No array occurs twice. */
  ghost predicate Apart(t: Tree) {
    && AllApart(t.kids)
    && forall i :: 0 <= i < |t.kids| ==> t.here !! t.kids[i].all
  }

  ghost predicate AllApart(kids: seq<Tree>) {
    && (forall i :: 0 <= i < |kids| ==> Apart(kids[i]))
    && (forall i, j :: 0 <= i < j < |kids| ==> kids[i].all !! kids[j].all)
  }

  lemma ApartKids(t: Tree)
    requires Apart(t)
    ensures forall i :: 0 <= i < |t.kids| ==> Apart(t.kids[i]) && t.here !! t.kids[i].all
    ensures forall i, j :: 0 <= i < j < |t.kids| ==> t.kids[i].all !! t.kids[j].all
  {
  }

  lemma AddKid(kids: seq<Tree>, kid: Tree, below: set<object>)
    requires AllApart(kids) && Apart(kid) && below !! kid.all
    requires forall i :: 0 <= i < |kids| ==> kids[i].all <= below
    ensures AllApart(kids + [kid])
    ensures forall i :: 0 <= i < |kids| + 1 ==> (kids + [kid])[i].all <= below + kid.all
  {
  }

  lemma PrefixSnoc<T>(s: seq<T>, i: nat)
    requires i < |s|
    ensures s[..i + 1] == s[..i] + [s[i]]
  {
  }

  // ---- A struct in the heap reaches the arrays `t` and stands for the value `v` ----

  ghost predicate RolesAre(roles: array?<string>, t: Tree, v: Slice<string>)
    reads t.all
  {
    && t.kids == []
    && if roles == null then v == Nil
       else roles in t.all && t.here == {roles} && v == Elements(roles[..])
  }

  ghost predicate UserIs(u: User, t: Tree, v: UserValue)
    reads t.all
  {
    u.name == v.name && RolesAre(u.roles, t, v.roles)
  }

  ghost predicate UserSeq(xs: seq<User>, kids: seq<Tree>, vs: seq<UserValue>, all: set<object>)
    reads all
  {
    && |xs| == |kids| == |vs|
    && forall i :: 0 <= i < |xs| ==> kids[i].all <= all && UserIs(xs[i], kids[i], vs[i])
  }

  lemma UserSeqSnoc(xs: seq<User>, kids: seq<Tree>, vs: seq<UserValue>, all: set<object>,
                x: User, kid: Tree, v: UserValue)
    requires UserSeq(xs, kids, vs, all) && UserIs(x, kid, v)
    ensures UserSeq(xs + [x], kids + [kid], vs + [v], all + kid.all)
  {
  }

  /** One more element copied. */
  lemma UserSeqGrows(done: seq<User>, kids: seq<Tree>, vs: seq<UserValue>, i: nat, below: set<object>, x: User, kid: Tree)
    requires i < |vs| && UserSeq(done, kids, vs[..i], below) && UserIs(x, kid, vs[i])
    requires AllApart(kids) && Apart(kid) && below !! kid.all
    ensures UserSeq(done + [x], kids + [kid], vs[..i + 1], below + kid.all) && AllApart(kids + [kid])
  {
    AddKid(kids, kid, below);
    PrefixSnoc(vs, i);
    UserSeqSnoc(done, kids, vs[..i], below, x, kid, vs[i]);
  }

  ghost predicate UsersAre(a: array?<User>, t: Tree, v: Slice<UserValue>)
    reads t.all
  {
    if a == null then t.kids == [] && v == Nil
    else a in t.all && t.here == {a} && v.Elements? && UserSeq(a[..], t.kids, v.elements, t.all)
  }

  ghost predicate SpaceIs(s: Space, t: Tree, v: SpaceValue)
    reads t.all
  {
    s.name == v.name && s.clusterName == v.clusterName && UsersAre(s.users, t, v.users)
  }

  ghost predicate SpaceSeq(xs: seq<Space>, kids: seq<Tree>, vs: seq<SpaceValue>, all: set<object>)
    reads all
  {
    && |xs| == |kids| == |vs|
    && forall i :: 0 <= i < |xs| ==> kids[i].all <= all && SpaceIs(xs[i], kids[i], vs[i])
  }

  lemma SpaceSeqSnoc(xs: seq<Space>, kids: seq<Tree>, vs: seq<SpaceValue>, all: set<object>,
                x: Space, kid: Tree, v: SpaceValue)
    requires SpaceSeq(xs, kids, vs, all) && SpaceIs(x, kid, v)
    ensures SpaceSeq(xs + [x], kids + [kid], vs + [v], all + kid.all)
  {
  }

  /** One more element copied. */
  lemma SpaceSeqGrows(done: seq<Space>, kids: seq<Tree>, vs: seq<SpaceValue>, i: nat, below: set<object>, x: Space, kid: Tree)
    requires i < |vs| && SpaceSeq(done, kids, vs[..i], below) && SpaceIs(x, kid, vs[i])
    requires AllApart(kids) && Apart(kid) && below !! kid.all
    ensures SpaceSeq(done + [x], kids + [kid], vs[..i + 1], below + kid.all) && AllApart(kids + [kid])
  {
    AddKid(kids, kid, below);
    PrefixSnoc(vs, i);
    SpaceSeqSnoc(done, kids, vs[..i], below, x, kid, vs[i]);
  }

  ghost predicate SpacesAre(a: array?<Space>, t: Tree, v: Slice<SpaceValue>)
    reads t.all
  {
    if a == null then t.kids == [] && v == Nil
    else a in t.all && t.here == {a} && v.Elements? && SpaceSeq(a[..], t.kids, v.elements, t.all)
  }

  ghost predicate OrgIs(o: Org, t: Tree, v: OrgValue)
    reads t.all
  {
    && t.here == {} && |t.kids| == 2 && t.kids[0].all <= t.all && t.kids[1].all <= t.all && o.meta == v.meta
    && UsersAre(o.spec.users, t.kids[0], v.users) && SpacesAre(o.spec.spaces, t.kids[1], v.spaces)
  }

  ghost predicate OrgSeq(xs: seq<Org>, kids: seq<Tree>, vs: seq<OrgValue>, all: set<object>)
    reads all
  {
    && |xs| == |kids| == |vs|
    && forall i :: 0 <= i < |xs| ==> kids[i].all <= all && OrgIs(xs[i], kids[i], vs[i])
  }

  lemma OrgSeqSnoc(xs: seq<Org>, kids: seq<Tree>, vs: seq<OrgValue>, all: set<object>,
                x: Org, kid: Tree, v: OrgValue)
    requires OrgSeq(xs, kids, vs, all) && OrgIs(x, kid, v)
    ensures OrgSeq(xs + [x], kids + [kid], vs + [v], all + kid.all)
  {
  }

  /** One more element copied. */
  lemma OrgSeqGrows(done: seq<Org>, kids: seq<Tree>, vs: seq<OrgValue>, i: nat, below: set<object>, x: Org, kid: Tree)
    requires i < |vs| && OrgSeq(done, kids, vs[..i], below) && OrgIs(x, kid, vs[i])
    requires AllApart(kids) && Apart(kid) && below !! kid.all
    ensures OrgSeq(done + [x], kids + [kid], vs[..i + 1], below + kid.all) && AllApart(kids + [kid])
  {
    AddKid(kids, kid, below);
    PrefixSnoc(vs, i);
    OrgSeqSnoc(done, kids, vs[..i], below, x, kid, vs[i]);
  }

  ghost predicate OrgsAre(a: array?<Org>, t: Tree, v: Slice<OrgValue>)
    reads t.all
  {
    if a == null then t.kids == [] && v == Nil
    else a in t.all && t.here == {a} && v.Elements? && OrgSeq(a[..], t.kids, v.elements, t.all)
  }

  ghost predicate OrgListIs(l: OrgList, t: Tree, v: OrgListValue)
    reads t.all
  {
    l.meta == v.meta && OrgsAre(l.items, t, v.items)
  }

  /** A struct stands for one value only. */
  lemma ValueIsUnique(l: OrgList, t: Tree, v: OrgListValue, t': Tree, v': OrgListValue)
    requires OrgListIs(l, t, v) && OrgListIs(l, t', v')
    ensures v == v'
  {
    if l.items != null {
      forall i | 0 <= i < l.items.Length ensures v.items.elements[i] == v'.items.elements[i] {
        assert OrgIs(l.items[..][i], t.kids[i], v.items.elements[i]) && OrgIs(l.items[..][i], t'.kids[i], v'.items.elements[i]);
        OrgIsUnique(l.items[i], t.kids[i], v.items.elements[i], t'.kids[i], v'.items.elements[i]);
      }
      assert v.items.elements == v'.items.elements;
    }
  }

  lemma OrgIsUnique(o: Org, t: Tree, v: OrgValue, t': Tree, v': OrgValue)
    requires OrgIs(o, t, v) && OrgIs(o, t', v')
    ensures v == v'
  {
    UsersAreUnique(o.spec.users, t.kids[0], v.users, t'.kids[0], v'.users);
    if o.spec.spaces != null {
      forall i | 0 <= i < o.spec.spaces.Length ensures v.spaces.elements[i] == v'.spaces.elements[i] {
        var space := o.spec.spaces[..][i];
        assert SpaceIs(space, t.kids[1].kids[i], v.spaces.elements[i]) && SpaceIs(space, t'.kids[1].kids[i], v'.spaces.elements[i]);
        UsersAreUnique(space.users, t.kids[1].kids[i], v.spaces.elements[i].users,
                       t'.kids[1].kids[i], v'.spaces.elements[i].users);
      }
      assert v.spaces.elements == v'.spaces.elements;
    }
  }

  lemma UsersAreUnique(a: array?<User>, t: Tree, v: Slice<UserValue>, t': Tree, v': Slice<UserValue>)
    requires UsersAre(a, t, v) && UsersAre(a, t', v')
    ensures v == v'
  {
    if a != null {
      forall i | 0 <= i < a.Length ensures v.elements[i] == v'.elements[i] {
        assert UserIs(a[..][i], t.kids[i], v.elements[i]) && UserIs(a[..][i], t'.kids[i], v'.elements[i]);
      }
      assert v.elements == v'.elements;
    }
  }

  // ---- Every list stands for some value ----

  const LEAF := Tree({}, {}, [])

  lemma RolesHaveValue(a: array?<string>) returns (t: Tree, v: Slice<string>)
    ensures RolesAre(a, t, v)
  {
    if a == null { return LEAF, Nil; }
    t, v := Tree({a}, {a}, []), Elements(a[..]);
  }

  lemma UsersHaveValue(a: array?<User>) returns (t: Tree, v: Slice<UserValue>)
    ensures UsersAre(a, t, v)
  {
    if a == null { return LEAF, Nil; }
    var kids: seq<Tree>, vs: seq<UserValue>, below: set<object> := [], [], {};
    for i := 0 to a.Length
      invariant UserSeq(a[..i], kids, vs, below)
    {
      var kid, roles := RolesHaveValue(a[i].roles);
      PrefixSnoc(a[..], i);
      UserSeqSnoc(a[..i], kids, vs, below, a[i], kid, UserValue(a[i].name, roles));
      kids, vs, below := kids + [kid], vs + [UserValue(a[i].name, roles)], below + kid.all;
    }
    assert a[..] == a[..a.Length];
    t, v := Tree({a}, {a} + below, kids), Elements(vs);
  }

  lemma SpacesHaveValue(a: array?<Space>) returns (t: Tree, v: Slice<SpaceValue>)
    ensures SpacesAre(a, t, v)
  {
    if a == null { return LEAF, Nil; }
    var kids: seq<Tree>, vs: seq<SpaceValue>, below: set<object> := [], [], {};
    for i := 0 to a.Length
      invariant SpaceSeq(a[..i], kids, vs, below)
    {
      var kid, users := UsersHaveValue(a[i].users);
      var value := SpaceValue(a[i].name, a[i].clusterName, users);
      PrefixSnoc(a[..], i);
      SpaceSeqSnoc(a[..i], kids, vs, below, a[i], kid, value);
      kids, vs, below := kids + [kid], vs + [value], below + kid.all;
    }
    assert a[..] == a[..a.Length];
    t, v := Tree({a}, {a} + below, kids), Elements(vs);
  }

  lemma OrgHasValue(o: Org) returns (t: Tree, v: OrgValue)
    ensures OrgIs(o, t, v)
  {
    var ut, users := UsersHaveValue(o.spec.users);
    var st, spaces := SpacesHaveValue(o.spec.spaces);
    t, v := Tree({}, ut.all + st.all, [ut, st]), OrgValue(o.meta, users, spaces);
  }

  /** Every list in any heap, shared arrays and all, reaches some arrays and stands for some value. */
  lemma ListHasValue(l: OrgList) returns (t: Tree, v: OrgListValue)
    ensures OrgListIs(l, t, v)
  {
    var a := l.items;
    if a == null { return LEAF, OrgListValue(l.meta, Nil); }
    var kids: seq<Tree>, vs: seq<OrgValue>, below: set<object> := [], [], {};
    for i := 0 to a.Length
      invariant OrgSeq(a[..i], kids, vs, below)
    {
      var kid, value := OrgHasValue(a[i]);
      PrefixSnoc(a[..], i);
      OrgSeqSnoc(a[..i], kids, vs, below, a[i], kid, value);
      kids, vs, below := kids + [kid], vs + [value], below + kid.all;
    }
    assert a[..] == a[..a.Length];
    t, v := Tree({a}, {a} + below, kids), OrgListValue(l.meta, Elements(vs));
  }

  // ---- Two structs that stand for the same value, spelled out ----

  lemma SameRoles(a: array?<string>, b: array?<string>, t: Tree, t': Tree, v: Slice<string>)
    requires RolesAre(a, t, v) && RolesAre(b, t', v)
    ensures (a == null <==> b == null) && (a != null ==> b != null && b[..] == a[..])
  {
  }

  lemma SameUsers(a: array?<User>, b: array?<User>, t: Tree, t': Tree, v: Slice<UserValue>)
    requires UsersAre(a, t, v) && UsersAre(b, t', v)
    ensures a == null <==> b == null
    ensures a != null ==>
              && b != null && b.Length == a.Length
              && forall j :: 0 <= j < a.Length ==>
                   && b[j].name == a[j].name
                   && (b[j].roles == null <==> a[j].roles == null)
                   && (a[j].roles != null ==> b[j].roles[..] == a[j].roles[..])
  {
    if a != null {
      forall j | 0 <= j < a.Length
        ensures b[j].name == a[j].name && (b[j].roles == null <==> a[j].roles == null)
        ensures a[j].roles != null ==> b[j].roles[..] == a[j].roles[..]
      {
        assert UserIs(a[..][j], t.kids[j], v.elements[j]) && UserIs(b[..][j], t'.kids[j], v.elements[j]);
        SameRoles(a[j].roles, b[j].roles, t.kids[j], t'.kids[j], v.elements[j].roles);
      }
    }
  }

  lemma SameSpaces(a: array?<Space>, b: array?<Space>, t: Tree, t': Tree, v: Slice<SpaceValue>)
    requires SpacesAre(a, t, v) && SpacesAre(b, t', v)
    ensures a == null <==> b == null
    ensures a != null ==>
              && b != null && b.Length == a.Length
              && forall p :: 0 <= p < a.Length ==>
                   && b[p].name == a[p].name && b[p].clusterName == a[p].clusterName
                   && (b[p].users == null <==> a[p].users == null)
                   && (a[p].users != null ==>
                         && b[p].users.Length == a[p].users.Length
                         && forall j :: 0 <= j < a[p].users.Length ==>
                              && b[p].users[j].name == a[p].users[j].name
                              && (b[p].users[j].roles == null <==> a[p].users[j].roles == null)
                              && (a[p].users[j].roles != null ==> b[p].users[j].roles[..] == a[p].users[j].roles[..]))
  {
    if a != null {
      forall p | 0 <= p < a.Length
        ensures b[p].name == a[p].name && b[p].clusterName == a[p].clusterName
        ensures b[p].users == null <==> a[p].users == null
        ensures a[p].users != null ==>
                  && b[p].users.Length == a[p].users.Length
                  && forall j :: 0 <= j < a[p].users.Length ==>
                       && b[p].users[j].name == a[p].users[j].name
                       && (b[p].users[j].roles == null <==> a[p].users[j].roles == null)
                       && (a[p].users[j].roles != null ==> b[p].users[j].roles[..] == a[p].users[j].roles[..])
      {
        assert SpaceIs(a[..][p], t.kids[p], v.elements[p]) && SpaceIs(b[..][p], t'.kids[p], v.elements[p]);
        SameUsers(a[p].users, b[p].users, t.kids[p], t'.kids[p], v.elements[p].users);
      }
    }
  }

  /** The users of the orgs of two lists that stand for the same value. */
  lemma SameOrgUsers(l: OrgList, m: OrgList, t: Tree, t': Tree, v: OrgListValue, i: nat)
    requires OrgListIs(l, t, v) && OrgListIs(m, t', v) && l.items != null && i < l.items.Length
    ensures m.items != null && i < m.items.Length && m.items[i].meta == l.items[i].meta
    ensures var a, b := l.items[i].spec.users, m.items[i].spec.users;
            && (a == null <==> b == null)
            && (a != null ==>
                  && b.Length == a.Length
                  && forall j :: 0 <= j < a.Length ==>
                       && b[j].name == a[j].name
                       && (b[j].roles == null <==> a[j].roles == null)
                       && (a[j].roles != null ==> b[j].roles[..] == a[j].roles[..]))
  {
    assert OrgIs(l.items[..][i], t.kids[i], v.items.elements[i]) && OrgIs(m.items[..][i], t'.kids[i], v.items.elements[i]);
    SameUsers(l.items[i].spec.users, m.items[i].spec.users, t.kids[i].kids[0], t'.kids[i].kids[0], v.items.elements[i].users);
  }

  /** And their spaces, with the spaces' users. */
  lemma SameOrgSpaces(l: OrgList, m: OrgList, t: Tree, t': Tree, v: OrgListValue, i: nat)
    requires OrgListIs(l, t, v) && OrgListIs(m, t', v) && l.items != null && i < l.items.Length
    ensures m.items != null && i < m.items.Length
    ensures var a, b := l.items[i].spec.spaces, m.items[i].spec.spaces;
            && (a == null <==> b == null)
            && (a != null ==>
                  && b.Length == a.Length
                  && forall p :: 0 <= p < a.Length ==>
                       && b[p].name == a[p].name && b[p].clusterName == a[p].clusterName
                       && (b[p].users == null <==> a[p].users == null)
                       && (a[p].users != null ==>
                             && b[p].users.Length == a[p].users.Length
                             && forall j :: 0 <= j < a[p].users.Length ==>
                                  && b[p].users[j].name == a[p].users[j].name
                                  && (b[p].users[j].roles == null <==> a[p].users[j].roles == null)
                                  && (a[p].users[j].roles != null ==> b[p].users[j].roles[..] == a[p].users[j].roles[..])))
  {
    assert OrgIs(l.items[..][i], t.kids[i], v.items.elements[i]) && OrgIs(m.items[..][i], t'.kids[i], v.items.elements[i]);
    SameSpaces(l.items[i].spec.spaces, m.items[i].spec.spaces, t.kids[i].kids[1], t'.kids[i].kids[1], v.items.elements[i].spaces);
  }

  /** No array of the list is met twice: not in two orgs, not in two spaces, not in two users. */
  lemma ArraysAreApart(l: OrgList, t: Tree, v: OrgListValue, i: nat, k: nat)
    requires OrgListIs(l, t, v) && Apart(t) && l.items != null && i < k < l.items.Length
    ensures var a, b := l.items[i].spec, l.items[k].spec;
            && (a.users != null ==> a.users != b.users)
            && (a.spaces != null ==> a.spaces != b.spaces)
            && (a.users != null && b.users != null ==>
                  forall j, q :: 0 <= j < a.users.Length && 0 <= q < b.users.Length && a.users[j].roles != null ==>
                    a.users[j].roles != b.users[q].roles)
  {
    assert OrgIs(l.items[..][i], t.kids[i], v.items.elements[i]) && OrgIs(l.items[..][k], t.kids[k], v.items.elements[k]);
    ApartKids(t);
    UsersApart(l.items[i].spec.users, t.kids[i].kids[0], v.items.elements[i].users,
               l.items[k].spec.users, t.kids[k].kids[0], v.items.elements[k].users);
  }

  /** Users under disjoint sets of arrays share none. */
  lemma UsersApart(a: array?<User>, t: Tree, v: Slice<UserValue>, b: array?<User>, t': Tree, v': Slice<UserValue>)
    requires UsersAre(a, t, v) && UsersAre(b, t', v') && t.all !! t'.all
    ensures a != null ==> a != b
    ensures a != null && b != null ==>
              forall j, q :: 0 <= j < a.Length && 0 <= q < b.Length && a[j].roles != null ==> a[j].roles != b[q].roles
  {
    if a != null && b != null {
      forall j, q | 0 <= j < a.Length && 0 <= q < b.Length && a[j].roles != null ensures a[j].roles != b[q].roles {
        assert UserIs(a[..][j], t.kids[j], v.elements[j]) && UserIs(b[..][q], t'.kids[q], v'.elements[q]);
      }
    }
  }

  /** Within one slice of users too. */
  lemma UsersOwnTheirRoles(a: array<User>, t: Tree, v: Slice<UserValue>, j: nat, q: nat)
    requires UsersAre(a, t, v) && Apart(t) && j < q < a.Length && a[j].roles != null
    ensures a[j].roles != a[q].roles
  {
    assert UserIs(a[..][j], t.kids[j], v.elements[j]) && UserIs(a[..][q], t.kids[q], v.elements[q]);
    ApartKids(t);
  }

  // ---- The copies ----

  method CopyRoles(src: array?<string>, ghost t: Tree, ghost v: Slice<string>)
    returns (out: array?<string>, ghost t': Tree)
    requires RolesAre(src, t, v)
    ensures RolesAre(out, t', v) && fresh(t'.all) && Apart(t')
    ensures out == null <==> src == null
    ensures src != null ==> fresh(out) && out[..] == src[..]
  {
    if src == null {
      return null, LEAF;
    }
    out := new string[src.Length](_ => "");
    for i := 0 to src.Length
      invariant out[..i] == src[..i]
    {
      out[i] := src[i];
    }
    assert out[..] == out[..src.Length] == src[..src.Length] == src[..];
    t' := Tree({out}, {out}, []);
  }

  method CopyUser(src: User, ghost t: Tree, ghost v: UserValue) returns (out: User, ghost t': Tree)
    requires UserIs(src, t, v)
    ensures UserIs(out, t', v) && fresh(t'.all) && Apart(t')
    ensures out.name == src.name && (out.roles == null <==> src.roles == null)
  {
    var roles;
    roles, t' := CopyRoles(src.roles, t, v.roles);
    out := User(src.name, roles);
  }

  /** DeepCopyInto writes through a pointer to an element of the new slice. */
  method UserDeepCopyInto(src: User, out: array<User>, i: nat, ghost t: Tree, ghost v: UserValue) returns (ghost t': Tree)
    requires UserIs(src, t, v) && i < out.Length && out !in t.all
    modifies out
    ensures out[..] == old(out[..])[i := out[i]]
    ensures UserIs(out[i], t', v) && fresh(t'.all) && out !in t'.all && Apart(t')
  {
    var copy;
    copy, t' := CopyUser(src, t, v);
    out[i] := copy;
  }

  method CopyUsers(src: array?<User>, ghost t: Tree, ghost v: Slice<UserValue>)
    returns (out: array?<User>, ghost t': Tree)
    requires UsersAre(src, t, v)
    ensures UsersAre(out, t', v) && fresh(t'.all) && Apart(t')
    ensures out == null <==> src == null
    ensures src != null ==> fresh(out) && out.Length == src.Length
  {
    if src == null {
      return null, LEAF;
    }
    out := new User[src.Length](_ => User("", null));
    ghost var kids: seq<Tree> := [];
    ghost var below: set<object> := {};
    for i := 0 to src.Length
      invariant fresh(out) && fresh(below) && out !in below && AllApart(kids)
      invariant UsersAre(src, t, v)
      invariant UserSeq(out[..i], kids, v.elements[..i], below)
    {
      ghost var done := out[..i];
      ghost var kid := UserDeepCopyInto(src[i], out, i, t.kids[i], v.elements[i]);
      PrefixSnoc(out[..], i);
      UserSeqGrows(done, kids, v.elements, i, below, out[i], kid);
      kids, below := kids + [kid], below + kid.all;
    }
    assert out[..] == out[..src.Length] && v.elements == v.elements[..src.Length];
    t' := Tree({out}, {out} + below, kids);
  }

  method CopySpace(src: Space, ghost t: Tree, ghost v: SpaceValue) returns (out: Space, ghost t': Tree)
    requires SpaceIs(src, t, v)
    ensures SpaceIs(out, t', v) && fresh(t'.all) && Apart(t')
    ensures out.name == src.name && out.clusterName == src.clusterName && (out.users == null <==> src.users == null)
  {
    var users;
    users, t' := CopyUsers(src.users, t, v.users);
    out := src.(users := users);
  }

  /** DeepCopyInto writes through a pointer to an element of the new slice. */
  method SpaceDeepCopyInto(src: Space, out: array<Space>, i: nat, ghost t: Tree, ghost v: SpaceValue) returns (ghost t': Tree)
    requires SpaceIs(src, t, v) && i < out.Length && out !in t.all
    modifies out
    ensures out[..] == old(out[..])[i := out[i]]
    ensures SpaceIs(out[i], t', v) && fresh(t'.all) && out !in t'.all && Apart(t')
  {
    var copy;
    copy, t' := CopySpace(src, t, v);
    out[i] := copy;
  }

  method CopySpaces(src: array?<Space>, ghost t: Tree, ghost v: Slice<SpaceValue>)
    returns (out: array?<Space>, ghost t': Tree)
    requires SpacesAre(src, t, v)
    ensures SpacesAre(out, t', v) && fresh(t'.all) && Apart(t')
    ensures out == null <==> src == null
    ensures src != null ==> fresh(out) && out.Length == src.Length
  {
    if src == null {
      return null, LEAF;
    }
    out := new Space[src.Length](_ => Space("", "", null));
    ghost var kids: seq<Tree> := [];
    ghost var below: set<object> := {};
    for i := 0 to src.Length
      invariant fresh(out) && fresh(below) && out !in below && AllApart(kids)
      invariant SpacesAre(src, t, v)
      invariant SpaceSeq(out[..i], kids, v.elements[..i], below)
    {
      ghost var done := out[..i];
      ghost var kid := SpaceDeepCopyInto(src[i], out, i, t.kids[i], v.elements[i]);
      PrefixSnoc(out[..], i);
      SpaceSeqGrows(done, kids, v.elements, i, below, out[i], kid);
      kids, below := kids + [kid], below + kid.all;
    }
    assert out[..] == out[..src.Length] && v.elements == v.elements[..src.Length];
    t' := Tree({out}, {out} + below, kids);
  }

  method CopyOrg(src: Org, ghost t: Tree, ghost v: OrgValue) returns (out: Org, ghost t': Tree)
    requires OrgIs(src, t, v)
    ensures OrgIs(out, t', v) && fresh(t'.all) && Apart(t')
    ensures out.meta == src.meta
    ensures (out.spec.users == null <==> src.spec.users == null) && (out.spec.spaces == null <==> src.spec.spaces == null)
  {
    var users, spaces;
    ghost var ut, st;
    users, ut := CopyUsers(src.spec.users, t.kids[0], v.users);
    spaces, st := CopySpaces(src.spec.spaces, t.kids[1], v.spaces);
    out := Org(src.meta, OrgSpec(users, spaces));
    t' := Tree({}, ut.all + st.all, [ut, st]);
  }

  /** DeepCopyInto writes through a pointer to an element of the new slice. */
  method OrgDeepCopyInto(src: Org, out: array<Org>, i: nat, ghost t: Tree, ghost v: OrgValue) returns (ghost t': Tree)
    requires OrgIs(src, t, v) && i < out.Length && out !in t.all
    modifies out
    ensures out[..] == old(out[..])[i := out[i]]
    ensures OrgIs(out[i], t', v) && fresh(t'.all) && out !in t'.all && Apart(t')
  {
    var copy;
    copy, t' := CopyOrg(src, t, v);
    out[i] := copy;
  }

  method CopyOrgs(src: array?<Org>, ghost t: Tree, ghost v: Slice<OrgValue>)
    returns (out: array?<Org>, ghost t': Tree)
    requires OrgsAre(src, t, v)
    ensures OrgsAre(out, t', v) && fresh(t'.all) && Apart(t')
    ensures out == null <==> src == null
    ensures src != null ==> fresh(out) && out.Length == src.Length
  {
    if src == null {
      return null, LEAF;
    }
    out := new Org[src.Length](_ => Org("", OrgSpec(null, null)));
    ghost var kids: seq<Tree> := [];
    ghost var below: set<object> := {};
    for i := 0 to src.Length
      invariant fresh(out) && fresh(below) && out !in below && AllApart(kids)
      invariant OrgsAre(src, t, v)
      invariant OrgSeq(out[..i], kids, v.elements[..i], below)
    {
      ghost var done := out[..i];
      ghost var kid := OrgDeepCopyInto(src[i], out, i, t.kids[i], v.elements[i]);
      PrefixSnoc(out[..], i);
      OrgSeqGrows(done, kids, v.elements, i, below, out[i], kid);
      kids, below := kids + [kid], below + kid.all;
    }
    assert out[..] == out[..src.Length] && v.elements == v.elements[..src.Length];
    t' := Tree({out}, {out} + below, kids);
  }

  /** Copying an OrgList: the copy stands for the same value; all its arrays are fresh and no two are
      the same, however much the source shares; the source still stands for its value. */
  method CopyOrgList(src: OrgList, ghost t: Tree, ghost v: OrgListValue) returns (out: OrgList, ghost t': Tree)
    requires OrgListIs(src, t, v)
    ensures OrgListIs(out, t', v) && fresh(t'.all) && Apart(t')
    ensures OrgListIs(src, t, v) && t.all !! t'.all
    ensures out.meta == src.meta && (out.items == null <==> src.items == null)
    ensures src.items != null ==>
              && fresh(out.items) && out.items.Length == src.items.Length
              && forall i :: 0 <= i < src.items.Length ==>
                   var a, b := src.items[i], out.items[i];
                   && b.meta == a.meta
                   && (b.spec.users == null <==> a.spec.users == null)
                   && (b.spec.spaces == null <==> a.spec.spaces == null)
                   && (a.spec.users != null ==> fresh(b.spec.users) && b.spec.users.Length == a.spec.users.Length)
                   && (a.spec.spaces != null ==> fresh(b.spec.spaces) && b.spec.spaces.Length == a.spec.spaces.Length)
  {
    var items;
    items, t' := CopyOrgs(src.items, t, v.items);
    out := src.(items := items);
    if src.items != null {
      forall i | 0 <= i < src.items.Length
        ensures out.items[i].meta == src.items[i].meta
        ensures var a, b := src.items[i].spec, out.items[i].spec;
                && (b.users == null <==> a.users == null) && (b.spaces == null <==> a.spaces == null)
                && (a.users != null ==> b.users.Length == a.users.Length && b.users in t'.all)
                && (a.spaces != null ==> b.spaces.Length == a.spaces.Length && b.spaces in t'.all)
      {
        assert OrgIs(out.items[..][i], t'.kids[i], v.items.elements[i]);
        SameOrgUsers(src, out, t, t', v, i);
        SameOrgSpaces(src, out, t, t', v, i);
      }
    }
  }

  // ---- Writes through one side ----

  /** A new name for a user, or a new text for one of the user's roles. */
  datatype UserEdit = Rename(text: string) | SetRole(role: nat, text: string)

  /** One write through the arrays of an OrgList: any string that the list holds can be overwritten. */
  datatype Write =
    | SetMeta(org: nat, text: string)
    | EditOrgUser(org: nat, user: nat, edit: UserEdit)
    | SetSpaceName(org: nat, space: nat, text: string)
    | SetSpaceCluster(org: nat, space: nat, text: string)
    | EditSpaceUser(org: nat, space: nat, user: nat, edit: UserEdit)

  function RoleWritten(v: Slice<string>, k: nat, text: string): Slice<string> {
    if v.Nil? || k >= |v.elements| then v else Elements(v.elements[k := text])
  }

  function UserWritten(v: UserValue, edit: UserEdit): UserValue {
    match edit
    case Rename(text) => v.(name := text)
    case SetRole(k, text) => v.(roles := RoleWritten(v.roles, k, text))
  }

  function UsersWritten(v: Slice<UserValue>, j: nat, edit: UserEdit): Slice<UserValue> {
    if v.Nil? || j >= |v.elements| then v else Elements(v.elements[j := UserWritten(v.elements[j], edit)])
  }

  function SpaceWritten(v: SpaceValue, w: Write): SpaceValue {
    match w
    case SetSpaceName(_, _, text) => v.(name := text)
    case SetSpaceCluster(_, _, text) => v.(clusterName := text)
    case EditSpaceUser(_, _, j, edit) => v.(users := UsersWritten(v.users, j, edit))
    case _ => v
  }

  function SpacesWritten(v: Slice<SpaceValue>, p: nat, w: Write): Slice<SpaceValue> {
    if v.Nil? || p >= |v.elements| then v else Elements(v.elements[p := SpaceWritten(v.elements[p], w)])
  }

  function OrgWritten(v: OrgValue, w: Write): OrgValue {
    match w
    case SetMeta(_, text) => v.(meta := text)
    case EditOrgUser(_, j, edit) => v.(users := UsersWritten(v.users, j, edit))
    case SetSpaceName(_, p, _) => v.(spaces := SpacesWritten(v.spaces, p, w))
    case SetSpaceCluster(_, p, _) => v.(spaces := SpacesWritten(v.spaces, p, w))
    case EditSpaceUser(_, p, _, _) => v.(spaces := SpacesWritten(v.spaces, p, w))
  }

  /** The value after one write: changed in one place. */
  function Written(v: OrgListValue, w: Write): OrgListValue {
    if v.items.Nil? || w.org >= |v.items.elements| then v
    else v.(items := Elements(v.items.elements[w.org := OrgWritten(v.items.elements[w.org], w)]))
  }

  function AllWritten(v: OrgListValue, writes: seq<Write>): OrgListValue
    decreases |writes|
  {
    if writes == [] then v else AllWritten(Written(v, writes[0]), writes[1..])
  }

  // ---- Which arrays the arrays hold: what a write of a string does not change ----

  datatype Refs = Refs(
    users: map<array<User>, seq<array?<string>>>,
    spaces: map<array<Space>, seq<array?<User>>>,
    orgs: map<array<Org>, seq<OrgSpec>>)

  ghost function RolesOf(a: array<User>): (refs: seq<array?<string>>)
    reads a
    ensures |refs| == a.Length && forall i :: 0 <= i < a.Length ==> refs[i] == a[i].roles
  {
    seq(a.Length, i requires 0 <= i < a.Length reads a => a[i].roles)
  }

  ghost function UsersOf(a: array<Space>): (refs: seq<array?<User>>)
    reads a
    ensures |refs| == a.Length && forall i :: 0 <= i < a.Length ==> refs[i] == a[i].users
  {
    seq(a.Length, i requires 0 <= i < a.Length reads a => a[i].users)
  }

  ghost function SpecsOf(a: array<Org>): (refs: seq<OrgSpec>)
    reads a
    ensures |refs| == a.Length && forall i :: 0 <= i < a.Length ==> refs[i] == a[i].spec
  {
    seq(a.Length, i requires 0 <= i < a.Length reads a => a[i].spec)
  }

  ghost predicate Describes(refs: Refs)
    reads refs.users.Keys, refs.spaces.Keys, refs.orgs.Keys
  {
    && (forall a <- refs.users :: refs.users[a] == RolesOf(a))
    && (forall a <- refs.spaces :: refs.spaces[a] == UsersOf(a))
    && (forall a <- refs.orgs :: refs.orgs[a] == SpecsOf(a))
  }

  ghost predicate RolesReach(a: array?<string>, t: Tree) {
    t.kids == [] && (a != null ==> a in t.all && t.here == {a})
  }

  ghost predicate UsersReach(refs: Refs, a: array?<User>, t: Tree) {
    if a == null then t.kids == []
    else
      && a in t.all && t.here == {a} && a in refs.users && |t.kids| == |refs.users[a]|
      && forall i :: 0 <= i < |t.kids| ==> t.kids[i].all <= t.all && RolesReach(refs.users[a][i], t.kids[i])
  }

  ghost predicate SpacesReach(refs: Refs, a: array?<Space>, t: Tree) {
    if a == null then t.kids == []
    else
      && a in t.all && t.here == {a} && a in refs.spaces && |t.kids| == |refs.spaces[a]|
      && forall i :: 0 <= i < |t.kids| ==> t.kids[i].all <= t.all && UsersReach(refs, refs.spaces[a][i], t.kids[i])
  }

  ghost predicate SpecReaches(refs: Refs, spec: OrgSpec, t: Tree) {
    && t.here == {} && |t.kids| == 2 && t.kids[0].all <= t.all && t.kids[1].all <= t.all
    && UsersReach(refs, spec.users, t.kids[0]) && SpacesReach(refs, spec.spaces, t.kids[1])
  }

  ghost predicate OrgsReach(refs: Refs, a: array?<Org>, t: Tree) {
    if a == null then t.kids == []
    else
      && a in t.all && t.here == {a} && a in refs.orgs && |t.kids| == |refs.orgs[a]|
      && forall i :: 0 <= i < |t.kids| ==> t.kids[i].all <= t.all && SpecReaches(refs, refs.orgs[a][i], t.kids[i])
  }

  // Where the references are described, the lists they form stand for some value.

  lemma UsersStand(refs: Refs, a: array?<User>, t: Tree) returns (v: Slice<UserValue>)
    requires Describes(refs) && UsersReach(refs, a, t)
    ensures UsersAre(a, t, v)
  {
    if a == null { return Nil; }
    var vs: seq<UserValue> := [];
    for i := 0 to a.Length
      invariant |vs| == i && forall k :: 0 <= k < i ==> UserIs(a[k], t.kids[k], vs[k])
    {
      vs := vs + [UserValue(a[i].name, if a[i].roles == null then Nil else Elements(a[i].roles[..]))];
    }
    v := Elements(vs);
  }

  lemma SpacesStand(refs: Refs, a: array?<Space>, t: Tree) returns (v: Slice<SpaceValue>)
    requires Describes(refs) && SpacesReach(refs, a, t)
    ensures SpacesAre(a, t, v)
  {
    if a == null { return Nil; }
    var vs: seq<SpaceValue> := [];
    for i := 0 to a.Length
      invariant |vs| == i && forall k :: 0 <= k < i ==> SpaceIs(a[k], t.kids[k], vs[k])
    {
      var users := UsersStand(refs, a[i].users, t.kids[i]);
      vs := vs + [SpaceValue(a[i].name, a[i].clusterName, users)];
    }
    v := Elements(vs);
  }

  lemma OrgStands(refs: Refs, o: Org, t: Tree) returns (v: OrgValue)
    requires Describes(refs) && SpecReaches(refs, o.spec, t)
    ensures OrgIs(o, t, v)
  {
    var users := UsersStand(refs, o.spec.users, t.kids[0]);
    var spaces := SpacesStand(refs, o.spec.spaces, t.kids[1]);
    v := OrgValue(o.meta, users, spaces);
  }

  lemma ListStands(refs: Refs, l: OrgList, t: Tree) returns (v: OrgListValue)
    requires Describes(refs) && OrgsReach(refs, l.items, t)
    ensures OrgListIs(l, t, v)
  {
    var a := l.items;
    if a == null { return OrgListValue(l.meta, Nil); }
    var vs: seq<OrgValue> := [];
    for i := 0 to a.Length
      invariant |vs| == i && forall k :: 0 <= k < i ==> OrgIs(a[k], t.kids[k], vs[k])
    {
      var value := OrgStands(refs, a[i], t.kids[i]);
      vs := vs + [value];
    }
    v := OrgListValue(l.meta, Elements(vs));
  }

  // And the other way round: a list that stands for a value has its references described.

  ghost predicate Covers(refs: Refs, all: set<object>) {
    && (forall a: array<User> :: a in all ==> a in refs.users)
    && (forall a: array<Space> :: a in all ==> a in refs.spaces)
    && (forall a: array<Org> :: a in all ==> a in refs.orgs)
  }

  ghost function RefsIn(all: set<object>): Refs
    reads all
  {
    Refs(map a: array<User> | a in all :: RolesOf(a),
         map a: array<Space> | a in all :: UsersOf(a),
         map a: array<Org> | a in all :: SpecsOf(a))
  }

  lemma RefsInDescribe(all: set<object>)
    ensures Describes(RefsIn(all)) && Covers(RefsIn(all), all)
  {
  }

  lemma UsersReached(refs: Refs, a: array?<User>, t: Tree, v: Slice<UserValue>, all: set<object>)
    requires Describes(refs) && Covers(refs, all) && t.all <= all && UsersAre(a, t, v)
    ensures UsersReach(refs, a, t)
  {
    if a != null {
      forall i | 0 <= i < |t.kids| ensures t.kids[i].all <= t.all && RolesReach(refs.users[a][i], t.kids[i]) {
        assert UserIs(a[..][i], t.kids[i], v.elements[i]);
      }
    }
  }

  lemma SpacesReached(refs: Refs, a: array?<Space>, t: Tree, v: Slice<SpaceValue>, all: set<object>)
    requires Describes(refs) && Covers(refs, all) && t.all <= all && SpacesAre(a, t, v)
    ensures SpacesReach(refs, a, t)
  {
    if a != null {
      forall i | 0 <= i < |t.kids| ensures t.kids[i].all <= t.all && UsersReach(refs, refs.spaces[a][i], t.kids[i]) {
        assert SpaceIs(a[..][i], t.kids[i], v.elements[i]);
        UsersReached(refs, a[i].users, t.kids[i], v.elements[i].users, all);
      }
    }
  }

  lemma OrgsReached(refs: Refs, a: array?<Org>, t: Tree, v: Slice<OrgValue>, all: set<object>)
    requires Describes(refs) && Covers(refs, all) && t.all <= all && OrgsAre(a, t, v)
    ensures OrgsReach(refs, a, t)
  {
    if a != null {
      forall i | 0 <= i < |t.kids| ensures t.kids[i].all <= t.all && SpecReaches(refs, refs.orgs[a][i], t.kids[i]) {
        assert OrgIs(a[..][i], t.kids[i], v.elements[i]);
        UsersReached(refs, a[i].spec.users, t.kids[i].kids[0], v.elements[i].users, all);
        SpacesReached(refs, a[i].spec.spaces, t.kids[i].kids[1], v.elements[i].spaces, all);
      }
    }
  }

  // ---- The writes ----

  /** The text is where it was written, and other orgs are as before. */
  lemma WrittenTakesEffect(v: OrgListValue, w: Write)
    requires v.items.Elements? && w.org < |v.items.elements|
    ensures var orgs, orgs' := v.items.elements, Written(v, w).items;
            && orgs'.Elements? && |orgs'.elements| == |orgs|
            && (forall i :: 0 <= i < |orgs| && i != w.org ==> orgs'.elements[i] == orgs[i])
            && var o, o' := orgs[w.org], orgs'.elements[w.org];
            match w
            case SetMeta(_, text) => o' == o.(meta := text)
            case EditOrgUser(_, j, edit) =>
              o'.meta == o.meta && o'.spaces == o.spaces && UserEdited(o.users, o'.users, j, edit)
            case SetSpaceName(_, p, text) =>
              o'.meta == o.meta && o'.users == o.users
              && (o.spaces.Elements? && p < |o.spaces.elements| ==>
                    o'.spaces == Elements(o.spaces.elements[p := o.spaces.elements[p].(name := text)]))
            case SetSpaceCluster(_, p, text) =>
              o'.meta == o.meta && o'.users == o.users
              && (o.spaces.Elements? && p < |o.spaces.elements| ==>
                    o'.spaces == Elements(o.spaces.elements[p := o.spaces.elements[p].(clusterName := text)]))
            case EditSpaceUser(_, p, j, edit) =>
              o'.meta == o.meta && o'.users == o.users
              && (o.spaces.Elements? && p < |o.spaces.elements| ==>
                    && o'.spaces.Elements? && |o'.spaces.elements| == |o.spaces.elements|
                    && (forall q :: 0 <= q < |o.spaces.elements| && q != p ==> o'.spaces.elements[q] == o.spaces.elements[q])
                    && o'.spaces.elements[p].name == o.spaces.elements[p].name
                    && o'.spaces.elements[p].clusterName == o.spaces.elements[p].clusterName
                    && UserEdited(o.spaces.elements[p].users, o'.spaces.elements[p].users, j, edit))
  {
  }

  /** User `j`, if there is one, has the new name or the new text in its role, and nothing else differs. */
  ghost predicate UserEdited(v: Slice<UserValue>, v': Slice<UserValue>, j: nat, edit: UserEdit) {
    v.Elements? && j < |v.elements| ==>
      && v'.Elements? && |v'.elements| == |v.elements|
      && (forall q :: 0 <= q < |v.elements| && q != j ==> v'.elements[q] == v.elements[q])
      && match edit
         case Rename(text) => v'.elements[j] == UserValue(text, v.elements[j].roles)
         case SetRole(k, text) =>
           && v'.elements[j].name == v.elements[j].name
           && (v.elements[j].roles.Elements? && k < |v.elements[j].roles.elements| ==>
                 v'.elements[j].roles == Elements(v.elements[j].roles.elements[k := text]))
  }

  method WriteRole(roles: array?<string>, ghost t: Tree, ghost v: Slice<string>, k: nat, text: string,
                   ghost refs: Refs)
    requires Describes(refs) && RolesAre(roles, t, v)
    modifies t.all
    ensures Describes(refs)
    ensures RolesAre(roles, t, RoleWritten(v, k, text))
  {
    if roles != null && k < roles.Length {
      roles[k] := text;
    }
  }

  method PutUser(a: array<User>, j: nat, x: User, ghost refs: Refs)
    requires Describes(refs) && j < a.Length && x.roles == a[j].roles
    modifies a
    ensures Describes(refs) && a[..] == old(a[..])[j := x]
  {
    a[j] := x;
    assert RolesOf(a) == old(RolesOf(a));
  }

  method PutSpace(a: array<Space>, p: nat, x: Space, ghost refs: Refs)
    requires Describes(refs) && p < a.Length && x.users == a[p].users
    modifies a
    ensures Describes(refs) && a[..] == old(a[..])[p := x]
  {
    a[p] := x;
    assert UsersOf(a) == old(UsersOf(a));
  }

  method PutOrg(a: array<Org>, k: nat, x: Org, ghost refs: Refs)
    requires Describes(refs) && k < a.Length && x.spec == a[k].spec
    modifies a
    ensures Describes(refs) && a[..] == old(a[..])[k := x]
  {
    a[k] := x;
    assert SpecsOf(a) == old(SpecsOf(a));
  }

  method WriteUsers(a: array?<User>, ghost t: Tree, ghost v: Slice<UserValue>, j: nat, edit: UserEdit,
                    ghost refs: Refs)
    requires Describes(refs) && UsersAre(a, t, v)
    modifies t.all
    ensures Describes(refs)
    ensures Apart(t) ==> UsersAre(a, t, UsersWritten(v, j, edit))
  {
    if a != null && j < a.Length {
      assert UserIs(a[..][j], t.kids[j], v.elements[j]);
      if Apart(t) { ApartKids(t); }
      match edit {
        case Rename(text) =>
          PutUser(a, j, a[j].(name := text), refs);
        case SetRole(k, text) =>
          WriteRole(a[j].roles, t.kids[j], v.elements[j].roles, k, text, refs);
      }
    }
  }

  /** A write of one of the space's own strings. */
  method WriteSpaceText(a: array<Space>, ghost t: Tree, ghost v: Slice<SpaceValue>, p: nat, w: Write, ghost refs: Refs)
    requires Describes(refs) && SpacesAre(a, t, v) && p < a.Length && (w.SetSpaceName? || w.SetSpaceCluster?)
    modifies a
    ensures Describes(refs)
    ensures Apart(t) ==> SpacesAre(a, t, SpacesWritten(v, p, w))
  {
    if Apart(t) { ApartKids(t); }
    PutSpace(a, p, if w.SetSpaceName? then a[p].(name := w.text) else a[p].(clusterName := w.text), refs);
  }

  method WriteSpaces(a: array?<Space>, ghost t: Tree, ghost v: Slice<SpaceValue>, p: nat, w: Write,
                     ghost refs: Refs)
    requires Describes(refs) && SpacesAre(a, t, v)
    modifies t.all
    ensures Describes(refs)
    ensures Apart(t) ==> SpacesAre(a, t, SpacesWritten(v, p, w))
  {
    if a != null && p < a.Length {
      assert SpaceIs(a[..][p], t.kids[p], v.elements[p]);
      if Apart(t) { ApartKids(t); }
      if w.EditSpaceUser? {
        WriteUsers(a[p].users, t.kids[p], v.elements[p].users, w.user, w.edit, refs);
      } else if w.SetSpaceName? || w.SetSpaceCluster? {
        WriteSpaceText(a, t, v, p, w, refs);
      }
    }
  }

  method WriteOrg(o: Org, ghost t: Tree, ghost v: OrgValue, w: Write, ghost refs: Refs)
    requires Describes(refs) && OrgIs(o, t, v) && !w.SetMeta?
    modifies t.all
    ensures Describes(refs)
    ensures Apart(t) ==> OrgIs(o, t, OrgWritten(v, w))
  {
    if Apart(t) { ApartKids(t); }
    if w.EditOrgUser? {
      WriteUsers(o.spec.users, t.kids[0], v.users, w.user, w.edit, refs);
    } else {
      WriteSpaces(o.spec.spaces, t.kids[1], v.spaces, w.space, w, refs);
    }
  }

  method WriteOrgs(a: array?<Org>, ghost t: Tree, ghost v: Slice<OrgValue>, w: Write, ghost refs: Refs)
    requires Describes(refs) && OrgsAre(a, t, v)
    modifies t.all
    ensures Describes(refs)
    ensures Apart(t) ==>
              OrgsAre(a, t, if v.Nil? || w.org >= |v.elements| then v
                            else Elements(v.elements[w.org := OrgWritten(v.elements[w.org], w)]))
  {
    if a != null && w.org < a.Length {
      assert OrgIs(a[..][w.org], t.kids[w.org], v.elements[w.org]);
      if Apart(t) { ApartKids(t); }
      if w.SetMeta? {
        PutOrg(a, w.org, a[w.org].(meta := w.text), refs);
      } else {
        WriteOrg(a[w.org], t.kids[w.org], v.elements[w.org], w, refs);
      }
    }
  }

  /** After one write the list reaches the same arrays and stands for some value; where no array occurs
      twice, that is the old value changed in one place. */
  method WriteOne(l: OrgList, ghost t: Tree, ghost v: OrgListValue, w: Write) returns (ghost v': OrgListValue)
    requires OrgListIs(l, t, v)
    modifies t.all
    ensures OrgListIs(l, t, v')
    ensures Apart(t) ==> v' == Written(v, w)
  {
    ghost var refs := RefsIn(t.all);
    RefsInDescribe(t.all);
    OrgsReached(refs, l.items, t, v.items, t.all);
    WriteOrgs(l.items, t, v.items, w, refs);
    if Apart(t) {
      v' := Written(v, w);
    } else {
      v' := ListStands(refs, l, t);
    }
  }

  /** Whatever else is written, replaced slices included: as long as it is written elsewhere than to the
      arrays of this side, this side stands for the value it had. */
  twostate lemma OtherSideKept(l: OrgList, t: Tree, v: OrgListValue)
    requires old(OrgListIs(l, t, v)) && old(allocated(t.all)) && unchanged(t.all)
    ensures OrgListIs(l, t, v)
  {
  }

  /** Any sequence of writes through one side, the source with its shared arrays or the copy without,
      leaves the other side as it was: a copy and its source share no array.  Where no array of the
      written side occurs twice, that side has changed as written. */
  method WriteAll(l: OrgList, ghost t: Tree, ghost v: OrgListValue, writes: seq<Write>,
                  ghost other: OrgList, ghost t': Tree, ghost v': OrgListValue)
    returns (ghost now: OrgListValue)
    requires OrgListIs(l, t, v) && OrgListIs(other, t', v') && t.all !! t'.all
    modifies t.all
    ensures OrgListIs(other, t', v')
    ensures OrgListIs(l, t, now) && (Apart(t) ==> now == AllWritten(v, writes))
  {
    now := v;
    for i := 0 to |writes|
      invariant OrgListIs(l, t, now) && OrgListIs(other, t', v')
      invariant Apart(t) ==> AllWritten(v, writes) == AllWritten(now, writes[i..])
    {
      assert writes[i..][1..] == writes[i + 1..];
      now := WriteOne(l, t, now, writes[i]);
    }
  }
}

/** The two admission policies that let space developers change nothing but labels and annotations of
    a Droplet: one for OPA, one for Gatekeeper. */
module Policy {
  import opened Json

  /** A reference that leads nowhere is undefined. */
  datatype Ref = Undefined | Defined(value: Json)

  /** What the policies read of an admission review. */
  datatype Review = Review(kind: Ref, username: Ref, groups: Ref, newObject: Ref, oldObject: Ref)

  function Field(r: Ref, name: string): Ref {
    if r.Defined? && r.value.Obj? && name in r.value.fields then Defined(r.value.fields[name]) else Undefined
  }

  /** What `r[_]` ranges over. */
  function Each(r: Ref): set<Json> {
    match r
    case Defined(Arr(items)) => set item | item in items
    case Defined(Obj(fields)) => fields.Values
    case _ => {}
  }

  const PROTECTED: seq<seq<string>> :=
    [["metadata", "annotations"], ["metadata", "labels"], ["metadata", "managedFields"]]

  const SPACE_DEVELOPER := "space-developer"

  const GROUP_VERSION := "rbac.authorization.k8s.io/v1"

  ghost predicate HasSubject(binding: Json, kind: string, names: set<Json>) {
    exists subject :: subject in Each(Field(Defined(binding), "subjects"))
                      && Field(Defined(subject), "kind") == Defined(Str(kind))
                      && Field(Defined(subject), "name").Defined? && Field(Defined(subject), "name").value in names
  }

  ghost predicate Binds(binding: Json, review: Review, role: Json) {
    && Field(Field(Defined(binding), "roleRef"), "name") == Defined(role)
    && (|| (review.username.Defined? && HasSubject(binding, "User", {review.username.value}))
        || HasSubject(binding, "Group", Each(review.groups)))
  }

  /** json.remove is undefined on anything but an object, and so is then the rule. */
  predicate ForbiddenChange(review: Review) {
    && review.newObject.Defined? && review.newObject.value.Obj?
    && review.oldObject.Defined? && review.oldObject.value.Obj?
    && RemoveAll(review.newObject.value, PROTECTED) != RemoveAll(review.oldObject.value, PROTECTED)
  }

  // ---- OPA ----

  ghost predicate IsSpaceDeveloper(rolebindings: Ref, review: Review) {
    exists binding :: binding in Each(rolebindings) && Binds(binding, review, Str(SPACE_DEVELOPER))
  }

  ghost predicate Deny(rolebindings: Ref, review: Review) {
    review.kind == Defined(Str("Droplet")) && IsSpaceDeveloper(rolebindings, review) && ForbiddenChange(review)
  }

  // ---- Gatekeeper ----

  function RoleBindingsOf(namespace: Json): Ref {
    Field(Field(Defined(namespace), GROUP_VERSION), "RoleBinding")
  }

  ghost predicate HasRole(namespaces: Ref, review: Review, role: Json) {
    exists namespace, binding :: namespace in Each(namespaces) && binding in Each(RoleBindingsOf(namespace))
                                 && Binds(binding, review, role)
  }

  ghost predicate Violation(namespaces: Ref, review: Review, role: Json) {
    HasRole(namespaces, review, role) && ForbiddenChange(review)
  }

  // ---- What they decide ----

  lemma ProtectedPaths(q: seq<string>)
    ensures Hidden(PROTECTED, q)
            <==> ["metadata", "annotations"] <= q || ["metadata", "labels"] <= q || ["metadata", "managedFields"] <= q
  {
    assert PROTECTED[0] in PROTECTED && PROTECTED[1] in PROTECTED && PROTECTED[2] in PROTECTED;
  }

  /** A change is forbidden exactly when both versions are objects and differ in presence or value at some
      path that is not at or below metadata/annotations, metadata/labels or metadata/managedFields. */
  lemma ForbiddenExactly(review: Review)
    ensures ForbiddenChange(review)
            <==> && review.newObject.Defined? && review.newObject.value.Obj?
                 && review.oldObject.Defined? && review.oldObject.value.Obj?
                 && exists q :: !(["metadata", "annotations"] <= q) && !(["metadata", "labels"] <= q)
                                && !(["metadata", "managedFields"] <= q)
                                && See(review.newObject.value, q) != See(review.oldObject.value, q)
  {
    if review.newObject.Defined? && review.oldObject.Defined? {
      RemovedEqualExactly(review.newObject.value, review.oldObject.value, PROTECTED);
      forall q ensures Hidden(PROTECTED, q)
        <==> ["metadata", "annotations"] <= q || ["metadata", "labels"] <= q || ["metadata", "managedFields"] <= q
      {
        ProtectedPaths(q);
      }
    }
  }

  /** A review is denied exactly when it is about a Droplet, the requester is bound to space-developer,
      both versions are objects, and they differ in presence or value at some path outside the three
      metadata fields. */
  lemma DenyExactly(rolebindings: Ref, review: Review)
    ensures Deny(rolebindings, review)
            <==> && review.kind == Defined(Str("Droplet")) && IsSpaceDeveloper(rolebindings, review)
                 && review.newObject.Defined? && review.newObject.value.Obj?
                 && review.oldObject.Defined? && review.oldObject.value.Obj?
                 && exists q :: !(["metadata", "annotations"] <= q) && !(["metadata", "labels"] <= q)
                                && !(["metadata", "managedFields"] <= q)
                                && See(review.newObject.value, q) != See(review.oldObject.value, q)
  {
    ForbiddenExactly(review);
  }

  lemma ViolationExactly(namespaces: Ref, review: Review, role: Json)
    ensures Violation(namespaces, review, role)
            <==> && HasRole(namespaces, review, role)
                 && review.newObject.Defined? && review.newObject.value.Obj?
                 && review.oldObject.Defined? && review.oldObject.value.Obj?
                 && exists q :: !(["metadata", "annotations"] <= q) && !(["metadata", "labels"] <= q)
                                && !(["metadata", "managedFields"] <= q)
                                && See(review.newObject.value, q) != See(review.oldObject.value, q)
  {
    ForbiddenExactly(review);
  }

  /** An element of an array, or a value of an object. */
  ghost predicate Held(x: Json, v: Json) {
    (v.Arr? && x in v.items) || (v.Obj? && exists k :: k in v.fields && v.fields[k] == x)
  }

  lemma EachExactly(v: Json, x: Json)
    ensures x in Each(Defined(v)) <==> Held(x, v)
  {
  }

  /** The binding's roleRef has this name. */
  ghost predicate RefersTo(binding: Json, role: Json) {
    && binding.Obj? && "roleRef" in binding.fields && binding.fields["roleRef"].Obj?
    && "name" in binding.fields["roleRef"].fields && binding.fields["roleRef"].fields["name"] == role
  }

  /** This is one of the binding's subjects, of this kind and name. */
  ghost predicate IsSubject(subject: Json, binding: Json, kind: string, name: Json) {
    && binding.Obj? && "subjects" in binding.fields && Held(subject, binding.fields["subjects"])
    && subject.Obj? && "kind" in subject.fields && "name" in subject.fields
    && subject.fields["kind"] == Str(kind) && subject.fields["name"] == name
  }

  lemma GivesSpelledOut(binding: Json, role: Json, kind: string, name: Json)
    ensures Gives(binding, role, kind, name)
            <==> RefersTo(binding, role) && exists subject :: IsSubject(subject, binding, kind, name)
  {
    if binding.Obj? && "subjects" in binding.fields {
      var subjects := binding.fields["subjects"];
      forall subject
        ensures subject in Each(Field(Defined(binding), "subjects")) <==> Held(subject, subjects)
      {
        EachExactly(subjects, subject);
      }
      if subject :| IsSubject(subject, binding, kind, name) {
        assert subject in Each(Field(Defined(binding), "subjects"));
      }
    }
    if HasSubject(binding, kind, {name}) {
      var subject :| subject in Each(Field(Defined(binding), "subjects"))
                     && Field(Defined(subject), "kind") == Defined(Str(kind))
                     && Field(Defined(subject), "name") == Defined(name);
      assert IsSubject(subject, binding, kind, name);
    }
  }

  lemma BindsBySubject(binding: Json, review: Review, role: Json)
    ensures Binds(binding, review, role)
            <==> RefersTo(binding, role) && exists subject, name ::
                   || (IsSubject(subject, binding, "User", name) && review.username == Defined(name))
                   || (IsSubject(subject, binding, "Group", name) && review.groups.Defined? && Held(name, review.groups.value))
  {
    BindsExactly(binding, review, role);
    if review.username.Defined? {
      GivesSpelledOut(binding, role, "User", review.username.value);
    }
    forall g
      ensures Gives(binding, role, "Group", g)
              <==> RefersTo(binding, role) && exists subject :: IsSubject(subject, binding, "Group", g)
      ensures g in Each(review.groups) <==> review.groups.Defined? && Held(g, review.groups.value)
    {
      GivesSpelledOut(binding, role, "Group", g);
      if review.groups.Defined? { EachExactly(review.groups.value, g); }
    }
  }

  /** What a binding must say, field by field: its roleRef's name is the role, and one of its subjects has
      kind User and the requester's name, or kind Group and the name of one of the requester's groups. */
  lemma BindsSpelledOut(binding: Json, review: Review, role: Json)
    ensures Binds(binding, review, role)
            <==> exists subject ::
                   && binding.Obj? && "roleRef" in binding.fields && binding.fields["roleRef"].Obj?
                   && "name" in binding.fields["roleRef"].fields && binding.fields["roleRef"].fields["name"] == role
                   && "subjects" in binding.fields
                   && var subjects := binding.fields["subjects"];
                   && ((subjects.Arr? && subject in subjects.items)
                       || (subjects.Obj? && exists k :: k in subjects.fields && subjects.fields[k] == subject))
                   && subject.Obj? && "kind" in subject.fields && "name" in subject.fields
                   && var name := subject.fields["name"];
                   (|| (subject.fields["kind"] == Str("User") && review.username == Defined(name))
                    || (subject.fields["kind"] == Str("Group") && review.groups.Defined?
                        && ((review.groups.value.Arr? && name in review.groups.value.items)
                            || (review.groups.value.Obj? && exists k :: k in review.groups.value.fields
                                                                        && review.groups.value.fields[k] == name))))
  {
    BindsBySubject(binding, review, role);
    if subject, name :|
      || (IsSubject(subject, binding, "User", name) && review.username == Defined(name))
      || (IsSubject(subject, binding, "Group", name) && review.groups.Defined? && Held(name, review.groups.value))
    {
      assert Held(subject, binding.fields["subjects"]) && subject.fields["name"] == name;
    }
    if subject :|
      && binding.Obj? && "roleRef" in binding.fields && binding.fields["roleRef"].Obj?
      && "name" in binding.fields["roleRef"].fields && binding.fields["roleRef"].fields["name"] == role
      && "subjects" in binding.fields
      && var subjects := binding.fields["subjects"];
      && ((subjects.Arr? && subject in subjects.items)
          || (subjects.Obj? && exists k :: k in subjects.fields && subjects.fields[k] == subject))
      && subject.Obj? && "kind" in subject.fields && "name" in subject.fields
      && var name := subject.fields["name"];
      (|| (subject.fields["kind"] == Str("User") && review.username == Defined(name))
       || (subject.fields["kind"] == Str("Group") && review.groups.Defined?
           && ((review.groups.value.Arr? && name in review.groups.value.items)
               || (review.groups.value.Obj? && exists k :: k in review.groups.value.fields
                                                           && review.groups.value.fields[k] == name))))
    {
      var name := subject.fields["name"];
      assert RefersTo(binding, role) && Held(subject, binding.fields["subjects"]);
      assert IsSubject(subject, binding, "User", name) || IsSubject(subject, binding, "Group", name);
    }
  }

  /** OPA's requester test, field by field: see BindsSpelledOut for the binding. */
  lemma IsSpaceDeveloperSpelledOut(rolebindings: Ref, review: Review)
    ensures IsSpaceDeveloper(rolebindings, review)
            <==> rolebindings.Defined? && exists binding ::
                   && ((rolebindings.value.Arr? && binding in rolebindings.value.items)
                       || (rolebindings.value.Obj? && exists k :: k in rolebindings.value.fields
                                                                  && rolebindings.value.fields[k] == binding))
                   && Binds(binding, review, Str("space-developer"))
  {
    if rolebindings.Defined? {
      forall binding ensures binding in Each(rolebindings) <==> Held(binding, rolebindings.value) {
        EachExactly(rolebindings.value, binding);
      }
    }
  }

  /** Gatekeeper's: the bindings are under rbac.authorization.k8s.io/v1, RoleBinding of each namespace. */
  lemma HasRoleSpelledOut(namespaces: map<string, Json>, review: Review, role: Json)
    ensures HasRole(Defined(Obj(namespaces)), review, role)
            <==> exists namespace, binding :: namespace in namespaces && namespaces[namespace].Obj?
                   && var groups := namespaces[namespace].fields;
                   && "rbac.authorization.k8s.io/v1" in groups && groups["rbac.authorization.k8s.io/v1"].Obj?
                   && var kinds := groups["rbac.authorization.k8s.io/v1"].fields;
                   && "RoleBinding" in kinds
                   && ((kinds["RoleBinding"].Arr? && binding in kinds["RoleBinding"].items)
                       || (kinds["RoleBinding"].Obj? && exists k :: k in kinds["RoleBinding"].fields
                                                                    && kinds["RoleBinding"].fields[k] == binding))
                   && Binds(binding, review, role)
  {
    var documents := Defined(Obj(namespaces));
    forall document, binding ensures binding in Each(RoleBindingsOf(document)) <==> InDocument(binding, document) {
      if RoleBindingsOf(document).Defined? {
        EachExactly(RoleBindingsOf(document).value, binding);
      }
    }
    if document, binding :| document in Each(documents) && binding in Each(RoleBindingsOf(document)) && Binds(binding, review, role) {
      var namespace :| namespace in namespaces && namespaces[namespace] == document;
      assert InDocument(binding, namespaces[namespace]);
    }
    if namespace, binding :| namespace in namespaces && InDocument(binding, namespaces[namespace]) && Binds(binding, review, role) {
      assert namespaces[namespace] in Each(documents);
    }
  }

  /** The binding is among the document's role bindings. */
  ghost predicate InDocument(binding: Json, document: Json) {
    && document.Obj? && "rbac.authorization.k8s.io/v1" in document.fields
    && document.fields["rbac.authorization.k8s.io/v1"].Obj?
    && "RoleBinding" in document.fields["rbac.authorization.k8s.io/v1"].fields
    && Held(binding, document.fields["rbac.authorization.k8s.io/v1"].fields["RoleBinding"])
  }

  // ---- Where the two engines find the bindings ----

  /** The role bindings of a cluster: namespace, then binding name. */
  type Inventory = map<string, map<string, Json>>

  /** Gatekeeper keeps them by namespace, group version, kind and name. */
  function ByNamespace(inventory: Inventory): Ref {
    Defined(Obj(map namespace | namespace in inventory ::
      Obj(map[GROUP_VERSION := Obj(map["RoleBinding" := Obj(inventory[namespace])])])))
  }

  /** `from` says of every binding name in use from which namespace the binding of that name comes. */
  ghost predicate Selects(inventory: Inventory, from: map<string, string>) {
    && (forall name <- from :: from[name] in inventory && name in inventory[from[name]])
    && (forall namespace, name :: namespace in inventory && name in inventory[namespace] ==> name in from)
  }

  /** OPA's collection has the binding name as its only key, so of several bindings with one name it
      holds just one, whichever was replicated last. */
  function ByName(inventory: Inventory, from: map<string, string>): Ref
    requires Selects(inventory, from)
  {
    Defined(Obj(map name | name in from :: inventory[from[name]][name]))
  }

  /** There always is such a choice. */
  lemma SelectionExists(inventory: Inventory)
    ensures exists from :: Selects(inventory, from)
  {
    var names := set namespace, name | namespace in inventory && name in inventory[namespace] :: name;
    var from := map name | name in names :: var n :| n in inventory && name in inventory[n]; n;
    assert Selects(inventory, from);
  }

  lemma EachByNamespace(inventory: Inventory, binding: Json)
    ensures (exists document :: document in Each(ByNamespace(inventory)) && binding in Each(RoleBindingsOf(document)))
            <==> exists namespace, name ::
                   namespace in inventory && name in inventory[namespace] && inventory[namespace][name] == binding
  {
    var fields := ByNamespace(inventory).value.fields;
    forall namespace | namespace in inventory
      ensures fields[namespace] in fields.Values
      ensures Each(RoleBindingsOf(fields[namespace])) == inventory[namespace].Values
    {
    }
  }

  lemma EachByName(inventory: Inventory, from: map<string, string>, binding: Json)
    requires Selects(inventory, from)
    ensures binding in Each(ByName(inventory, from))
            <==> exists name :: name in from && inventory[from[name]][name] == binding
  {
    var fields := ByName(inventory, from).value.fields;
    assert forall name <- from :: fields[name] in fields.Values;
  }

  lemma HasRoleExactly(inventory: Inventory, review: Review, role: Json)
    ensures HasRole(ByNamespace(inventory), review, role)
            <==> exists namespace, name :: namespace in inventory && name in inventory[namespace]
                                           && Binds(inventory[namespace][name], review, role)
  {
    if HasRole(ByNamespace(inventory), review, role) {
      var document, binding :| document in Each(ByNamespace(inventory)) && binding in Each(RoleBindingsOf(document))
                               && Binds(binding, review, role);
      EachByNamespace(inventory, binding);
    }
    if namespace, name :| namespace in inventory && name in inventory[namespace]
                          && Binds(inventory[namespace][name], review, role)
    {
      EachByNamespace(inventory, inventory[namespace][name]);
    }
  }

  lemma IsSpaceDeveloperExactly(inventory: Inventory, from: map<string, string>, review: Review)
    requires Selects(inventory, from)
    ensures IsSpaceDeveloper(ByName(inventory, from), review)
            <==> exists name :: name in from && Binds(inventory[from[name]][name], review, Str(SPACE_DEVELOPER))
  {
    if IsSpaceDeveloper(ByName(inventory, from), review) {
      var binding :| binding in Each(ByName(inventory, from)) && Binds(binding, review, Str(SPACE_DEVELOPER));
      EachByName(inventory, from, binding);
    }
    if name :| name in from && Binds(inventory[from[name]][name], review, Str(SPACE_DEVELOPER)) {
      EachByName(inventory, from, inventory[from[name]][name]);
    }
  }

  // ---- When the two policies decide alike ----

  /** Whatever OPA denies, Gatekeeper denies. */
  lemma DenyImpliesViolation(inventory: Inventory, from: map<string, string>, review: Review)
    requires Selects(inventory, from) && Deny(ByName(inventory, from), review)
    ensures Violation(ByNamespace(inventory), review, Str(SPACE_DEVELOPER))
  {
    IsSpaceDeveloperExactly(inventory, from, review);
    HasRoleExactly(inventory, review, Str(SPACE_DEVELOPER));
  }

  /** The binding gives the role to this User or Group. */
  ghost predicate Gives(binding: Json, role: Json, kind: string, subject: Json) {
    Field(Field(Defined(binding), "roleRef"), "name") == Defined(role) && HasSubject(binding, kind, {subject})
  }

  /** No one loses space-developer to a binding of the same name in another namespace: whoever is given
      it somewhere is given it by some binding that OPA holds. */
  ghost predicate NoneLost(inventory: Inventory, from: map<string, string>)
    requires Selects(inventory, from)
  {
    forall namespace, name, kind, subject ::
      namespace in inventory && name in inventory[namespace] && (kind == "User" || kind == "Group")
      && Gives(inventory[namespace][name], Str(SPACE_DEVELOPER), kind, subject) ==>
        exists held :: held in from && Gives(inventory[from[held]][held], Str(SPACE_DEVELOPER), kind, subject)
  }

  lemma BindsExactly(binding: Json, review: Review, role: Json)
    ensures Binds(binding, review, role)
            <==> || (review.username.Defined? && Gives(binding, role, "User", review.username.value))
                 || exists g :: g in Each(review.groups) && Gives(binding, role, "Group", g)
  {
    if HasSubject(binding, "Group", Each(review.groups)) {
      var subject :| subject in Each(Field(Defined(binding), "subjects"))
                     && Field(Defined(subject), "kind") == Defined(Str("Group"))
                     && Field(Defined(subject), "name").Defined?
                     && Field(Defined(subject), "name").value in Each(review.groups);
      assert HasSubject(binding, "Group", {Field(Defined(subject), "name").value});
    }
    if g :| g in Each(review.groups) && HasSubject(binding, "Group", {g}) {
      assert HasSubject(binding, "Group", Each(review.groups));
    }
  }

  /** A forbidden change to a Droplet by one User, or by some user of one Group. */
  function ForbiddenBy(kind: string, subject: Json): Review {
    Review(Defined(Str("Droplet")),
           if kind == "User" then Defined(subject) else Undefined,
           if kind == "User" then Undefined else Defined(Arr([subject])),
           Defined(Obj(map["spec" := Str("new")])), Defined(Obj(map["spec" := Str("old")])))
  }

  lemma ForbiddenByIsForbidden(kind: string, subject: Json)
    ensures ForbiddenChange(ForbiddenBy(kind, subject))
  {
    var review := ForbiddenBy(kind, subject);
    var q := ["spec"];
    assert See(review.newObject.value, q) == Leaf(Str("new")) && See(review.oldObject.value, q) == Leaf(Str("old"));
    assert !Hidden(PROTECTED, q);
    RemovedEqualExactly(review.newObject.value, review.oldObject.value, PROTECTED);
  }

  lemma ForbiddenByBinds(binding: Json, kind: string, subject: Json, role: Json)
    requires kind == "User" || kind == "Group"
    ensures Binds(binding, ForbiddenBy(kind, subject), role) <==> Gives(binding, role, kind, subject)
  {
    BindsExactly(binding, ForbiddenBy(kind, subject), role);
    assert Each(Defined(Arr([subject]))) == {subject};
  }

  /** The policies decide one review alike. */
  ghost predicate Alike(inventory: Inventory, from: map<string, string>, review: Review)
    requires Selects(inventory, from)
  {
    Violation(ByNamespace(inventory), review, Str(SPACE_DEVELOPER)) <==> Deny(ByName(inventory, from), review)
  }

  lemma NoneLostAlike(inventory: Inventory, from: map<string, string>, review: Review)
    requires Selects(inventory, from) && NoneLost(inventory, from) && review.kind == Defined(Str("Droplet"))
    ensures Alike(inventory, from, review)
  {
    HasRoleExactly(inventory, review, Str(SPACE_DEVELOPER));
    IsSpaceDeveloperExactly(inventory, from, review);
    if namespace, name :| namespace in inventory && name in inventory[namespace]
                          && Binds(inventory[namespace][name], review, Str(SPACE_DEVELOPER))
    {
      BindsExactly(inventory[namespace][name], review, Str(SPACE_DEVELOPER));
      var held := HeldBinding(inventory, from, review, namespace, name);
      assert Binds(inventory[from[held]][held], review, Str(SPACE_DEVELOPER));
    }
  }

  /** The binding that OPA holds for a requester who is bound somewhere. */
  lemma HeldBinding(inventory: Inventory, from: map<string, string>, review: Review, namespace: string, name: string)
    returns (held: string)
    requires Selects(inventory, from) && NoneLost(inventory, from)
    requires namespace in inventory && name in inventory[namespace]
    requires Binds(inventory[namespace][name], review, Str(SPACE_DEVELOPER))
    ensures held in from && Binds(inventory[from[held]][held], review, Str(SPACE_DEVELOPER))
  {
    var binding, role := inventory[namespace][name], Str(SPACE_DEVELOPER);
    BindsExactly(binding, review, role);
    if review.username.Defined? && Gives(binding, role, "User", review.username.value) {
      held :| held in from && Gives(inventory[from[held]][held], role, "User", review.username.value);
    } else {
      var g :| g in Each(review.groups) && Gives(binding, role, "Group", g);
      held :| held in from && Gives(inventory[from[held]][held], role, "Group", g);
    }
    BindsExactly(inventory[from[held]][held], review, role);
  }

  lemma LostIsNotAlike(inventory: Inventory, from: map<string, string>, namespace: string, name: string,
                       kind: string, subject: Json)
    requires Selects(inventory, from) && namespace in inventory && name in inventory[namespace]
    requires kind == "User" || kind == "Group"
    requires Gives(inventory[namespace][name], Str(SPACE_DEVELOPER), kind, subject)
    requires forall held <- from :: !Gives(inventory[from[held]][held], Str(SPACE_DEVELOPER), kind, subject)
    ensures Violation(ByNamespace(inventory), ForbiddenBy(kind, subject), Str(SPACE_DEVELOPER))
    ensures !Deny(ByName(inventory, from), ForbiddenBy(kind, subject))
  {
    var review, role := ForbiddenBy(kind, subject), Str(SPACE_DEVELOPER);
    ForbiddenByIsForbidden(kind, subject);
    HasRoleExactly(inventory, review, role);
    IsSpaceDeveloperExactly(inventory, from, review);
    ForbiddenByBinds(inventory[namespace][name], kind, subject, role);
    forall held | held in from ensures !Binds(inventory[from[held]][held], review, role) {
      ForbiddenByBinds(inventory[from[held]][held], kind, subject, role);
    }
  }

  /** The policies decide every review of a Droplet alike exactly when no one loses space-developer to a
      binding of the same name. */
  lemma PoliciesAgreeExactly(inventory: Inventory, from: map<string, string>)
    requires Selects(inventory, from)
    ensures (forall review: Review :: review.kind == Defined(Str("Droplet")) ==> Alike(inventory, from, review))
            <==> NoneLost(inventory, from)
  {
    if NoneLost(inventory, from) {
      forall review: Review | review.kind == Defined(Str("Droplet")) ensures Alike(inventory, from, review) {
        NoneLostAlike(inventory, from, review);
      }
    } else {
      var namespace, name, kind, subject :|
        namespace in inventory && name in inventory[namespace] && (kind == "User" || kind == "Group")
        && Gives(inventory[namespace][name], Str(SPACE_DEVELOPER), kind, subject)
        && forall held :: held in from ==> !Gives(inventory[from[held]][held], Str(SPACE_DEVELOPER), kind, subject);
      LostIsNotAlike(inventory, from, namespace, name, kind, subject);
      assert !Alike(inventory, from, ForbiddenBy(kind, subject));
    }
  }

  /** No binding name is used in two namespaces. */
  ghost predicate DistinctBindingNames(inventory: Inventory) {
    forall n, m, name :: n in inventory && m in inventory && name in inventory[n] && name in inventory[m] ==> n == m
  }

  /** With distinct binding names nobody is lost. */
  lemma DistinctNamesLoseNone(inventory: Inventory, from: map<string, string>)
    requires Selects(inventory, from) && DistinctBindingNames(inventory)
    ensures NoneLost(inventory, from)
  {
    forall namespace, name, kind, subject |
      namespace in inventory && name in inventory[namespace]
      && Gives(inventory[namespace][name], Str(SPACE_DEVELOPER), kind, subject)
      ensures exists held :: held in from && Gives(inventory[from[held]][held], Str(SPACE_DEVELOPER), kind, subject)
    {
      assert name in from && from[name] == namespace;
    }
  }

  /** A binding of space-developer to one User. */
  function Binding(user: string): Json {
    Obj(map["roleRef" := Obj(map["name" := Str(SPACE_DEVELOPER)]),
            "subjects" := Arr([Obj(map["kind" := Str("User"), "name" := Str(user)])])])
  }

  lemma BindingGives(user: string, subject: Json)
    ensures Gives(Binding(user), Str(SPACE_DEVELOPER), "User", subject) <==> subject == Str(user)
  {
    var item := Obj(map["kind" := Str("User"), "name" := Str(user)]);
    assert Each(Field(Defined(Binding(user)), "subjects")) == {item};
    assert Field(Defined(item), "name") == Defined(Str(user));
  }

  /** Two namespaces in which one binding name gives the role to different users: Gatekeeper denies the
      forbidden change of either user, OPA lets through that of the user whose binding was replaced. */
  lemma SameNameLosesOne(namespace: string, namespace': string, name: string, user: string, user': string)
    requires namespace != namespace' && user != user'
    ensures var inventory: Inventory := map[namespace := map[name := Binding(user)], namespace' := map[name := Binding(user')]];
            var from, review := map[name := namespace'], ForbiddenBy("User", Str(user));
            && Selects(inventory, from) && !NoneLost(inventory, from)
            && Violation(ByNamespace(inventory), review, Str(SPACE_DEVELOPER))
            && !Deny(ByName(inventory, from), review)
  {
    var inventory: Inventory := map[namespace := map[name := Binding(user)], namespace' := map[name := Binding(user')]];
    var from := map[name := namespace'];
    assert inventory[from[name]][name] == Binding(user');
    BindingGives(user, Str(user));
    BindingGives(user', Str(user));
    assert Gives(inventory[namespace][name], Str(SPACE_DEVELOPER), "User", Str(user));
    LostIsNotAlike(inventory, from, namespace, name, "User", Str(user));
  }

  // ---- A Droplet over time ----

  /** One request to change the Droplet, with the bindings at that moment and what OPA holds of them. */
  datatype Update = Update(inventory: Inventory, from: map<string, string>, username: Ref, groups: Ref, newObject: Json)

  datatype Engine = Opa | Gatekeeper

  function ReviewOf(droplet: Json, u: Update): Review {
    Review(Defined(Str("Droplet")), u.username, u.groups, Defined(u.newObject), Defined(droplet))
  }

  /** The engine finds the requester bound to space-developer. */
  ghost predicate Holds(engine: Engine, droplet: Json, u: Update)
    requires Selects(u.inventory, u.from)
  {
    match engine
    case Opa => IsSpaceDeveloper(ByName(u.inventory, u.from), ReviewOf(droplet, u))
    case Gatekeeper => HasRole(ByNamespace(u.inventory), ReviewOf(droplet, u), Str(SPACE_DEVELOPER))
  }

  ghost predicate Denied(engine: Engine, droplet: Json, u: Update)
    requires Selects(u.inventory, u.from)
  {
    match engine
    case Opa => Deny(ByName(u.inventory, u.from), ReviewOf(droplet, u))
    case Gatekeeper => Violation(ByNamespace(u.inventory), ReviewOf(droplet, u), Str(SPACE_DEVELOPER))
  }

  /** The Droplet after the updates that the engine admitted. */
  ghost function Admit(engine: Engine, droplet: Json, updates: seq<Update>): Json
    requires forall u <- updates :: Selects(u.inventory, u.from)
    decreases |updates|
  {
    if updates == [] then droplet
    else
      assert updates[0] in updates;
      if Denied(engine, droplet, updates[0]) then Admit(engine, droplet, updates[1..])
      else Admit(engine, updates[0].newObject, updates[1..])
  }

  /** An admitted update takes effect, a denied one does not. */
  lemma {:induction false} AdmittedTakesEffect(engine: Engine, droplet: Json, updates: seq<Update>, u: Update)
    requires (forall x <- updates :: Selects(x.inventory, x.from)) && Selects(u.inventory, u.from)
    ensures forall x <- updates + [u] :: Selects(x.inventory, x.from)
    ensures var now := Admit(engine, droplet, updates);
            Admit(engine, droplet, updates + [u]) == if Denied(engine, now, u) then now else u.newObject
    decreases |updates|
  {
    if updates == [] {
      assert updates + [u] == [u] && [u][1..] == [];
    } else {
      assert updates[0] in updates && (updates + [u])[1..] == updates[1..] + [u];
      AdmittedTakesEffect(engine, if Denied(engine, droplet, updates[0]) then droplet else updates[0].newObject, updates[1..], u);
    }
  }

  /** Over any run of updates by anyone, as long as nobody is lost, the two engines let the Droplet
      become the same. */
  lemma {:induction false} SameRun(droplet: Json, updates: seq<Update>)
    requires forall u <- updates :: Selects(u.inventory, u.from) && NoneLost(u.inventory, u.from)
    ensures Admit(Gatekeeper, droplet, updates) == Admit(Opa, droplet, updates)
    decreases |updates|
  {
    if updates != [] {
      var head := updates[0];
      assert head in updates;
      NoneLostAlike(head.inventory, head.from, ReviewOf(droplet, head));
      SameRun(droplet, updates[1..]);
      SameRun(head.newObject, updates[1..]);
    }
  }

  /** Who the requester is does not depend on the object. */
  lemma SameRequester(engine: Engine, droplet: Json, droplet': Json, u: Update)
    requires Selects(u.inventory, u.from)
    ensures Holds(engine, droplet', u) <==> Holds(engine, droplet, u)
  {
    assert forall binding, role ::
        Binds(binding, ReviewOf(droplet, u), role) <==> Binds(binding, ReviewOf(droplet', u), role);
  }

  /** While the engine finds every requester bound to space-developer and every update is an object, no
      run of updates ever changes the Droplet outside the three metadata fields. */
  lemma {:induction false} DropletNeverChanges(engine: Engine, droplet: Json, updates: seq<Update>)
    requires droplet.Obj?
    requires forall u <- updates :: u.newObject.Obj? && Selects(u.inventory, u.from) && Holds(engine, droplet, u)
    ensures var last := Admit(engine, droplet, updates);
            && last.Obj? && RemoveAll(last, PROTECTED) == RemoveAll(droplet, PROTECTED)
            && forall q ::
                 (["metadata", "annotations"] <= q) || (["metadata", "labels"] <= q) || (["metadata", "managedFields"] <= q)
                 || See(last, q) == See(droplet, q)
    decreases |updates|
  {
    if updates != [] {
      var head := updates[0];
      assert head in updates;
      var next := if Denied(engine, droplet, head) then droplet else head.newObject;
      assert RemoveAll(next, PROTECTED) == RemoveAll(droplet, PROTECTED);
      forall u | u in updates[1..] ensures Holds(engine, next, u) {
        assert u in updates;
        SameRequester(engine, droplet, next, u);
      }
      DropletNeverChanges(engine, next, updates[1..]);
    }
    RemovedEqualExactly(Admit(engine, droplet, updates), droplet, PROTECTED);
    forall q ensures Hidden(PROTECTED, q)
      <==> ["metadata", "annotations"] <= q || ["metadata", "labels"] <= q || ["metadata", "managedFields"] <= q
    {
      ProtectedPaths(q);
    }
  }
}

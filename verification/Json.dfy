/** JSON documents and the removal of paths from them, as the admission policies use it. */
module Json {

  datatype Json =
    | Null
    | Bool(b: bool)
    | Num(n: real)
    | Str(s: string)
    | Arr(items: seq<Json>)
    | Obj(fields: map<string, Json>)

  /** json.remove with one path.  A path that leads nowhere changes nothing; so does one that meets an
      array, as none of the policies' path segments is an array index. */
  function Remove(v: Json, path: seq<string>): Json
    decreases |path|
  {
    if path == [] || !v.Obj? || path[0] !in v.fields then v
    else if |path| == 1 then Obj(v.fields - {path[0]})
    else Obj(v.fields[path[0] := Remove(v.fields[path[0]], path[1..])])
  }

  function RemoveAll(v: Json, paths: seq<seq<string>>): Json
    decreases |paths|
  {
    if paths == [] then v else RemoveAll(Remove(v, paths[0]), paths[1..])
  }

  // ---- What one sees of a document at a path ----

  /** Nothing, an object, or a value that is no object. */
  datatype Seen = Absent | Object | Leaf(value: Json)

  function See(v: Json, path: seq<string>): Seen
    decreases |path|
  {
    if path == [] then if v.Obj? then Object else Leaf(v)
    else if v.Obj? && path[0] in v.fields then See(v.fields[path[0]], path[1..])
    else Absent
  }

  lemma SeesField(v: Json, k: string)
    requires v.Obj?
    ensures See(v, [k]) == Absent <==> k !in v.fields
    ensures k in v.fields ==> See(v, [k]) == See(v.fields[k], [])
  {
    assert [k][0] == k && [k][1..] == [];
  }

  /** Two documents that look the same at every path are the same. */
  lemma {:induction false} SameEverywhere(a: Json, b: Json)
    requires forall q :: See(a, q) == See(b, q)
    ensures a == b
    decreases a
  {
    assert See(a, []) == See(b, []);
    if a.Obj? {
      assert b.Obj?;
      forall k ensures k in a.fields <==> k in b.fields {
        assert See(a, [k]) == See(b, [k]);
        SeesField(a, k);
        SeesField(b, k);
      }
      forall k | k in a.fields ensures a.fields[k] == b.fields[k] {
        forall q ensures See(a.fields[k], q) == See(b.fields[k], q) {
          assert ([k] + q)[1..] == q;
          assert See(a, [k] + q) == See(b, [k] + q);
        }
        SameEverywhere(a.fields[k], b.fields[k]);
      }
      assert a.fields == b.fields;
    }
  }

  /** Removing a path hides everything at and below it, and nothing else. */
  lemma {:induction false} SeeAfterRemove(v: Json, path: seq<string>, q: seq<string>)
    requires path != []
    ensures See(Remove(v, path), q) == if path <= q then Absent else See(v, q)
    decreases |path|
  {
    if v.Obj? && q != [] {
      if path[0] in v.fields && |path| > 1 && q[0] == path[0] {
        SeeAfterRemove(v.fields[path[0]], path[1..], q[1..]);
        assert path <= q <==> path[1..] <= q[1..];
      } else if path <= q {
        assert q[0] == path[0];
      }
    }
  }

  ghost predicate Hidden(paths: seq<seq<string>>, q: seq<string>) {
    exists path :: path in paths && path <= q
  }

  ghost predicate ProperPaths(paths: seq<seq<string>>) {
    forall path <- paths :: path != []
  }

  lemma {:induction false} SeeAfterRemoveAll(v: Json, paths: seq<seq<string>>, q: seq<string>)
    requires ProperPaths(paths)
    ensures See(RemoveAll(v, paths), q) == if Hidden(paths, q) then Absent else See(v, q)
    decreases |paths|
  {
    if paths != [] {
      assert paths[0] in paths;
      assert forall path :: path in paths <==> path == paths[0] || path in paths[1..];
      SeeAfterRemove(v, paths[0], q);
      SeeAfterRemoveAll(Remove(v, paths[0]), paths[1..], q);
    }
  }

  /** Removal leaves two documents equal exactly when they agree, in presence and value, at every path
      that is not at or below a removed one. */
  lemma RemovedEqualExactly(a: Json, b: Json, paths: seq<seq<string>>)
    requires ProperPaths(paths)
    ensures RemoveAll(a, paths) == RemoveAll(b, paths)
            <==> forall q :: !Hidden(paths, q) ==> See(a, q) == See(b, q)
  {
    forall q
      ensures See(RemoveAll(a, paths), q) == if Hidden(paths, q) then Absent else See(a, q)
      ensures See(RemoveAll(b, paths), q) == if Hidden(paths, q) then Absent else See(b, q)
    {
      SeeAfterRemoveAll(a, paths, q);
      SeeAfterRemoveAll(b, paths, q);
    }
    if forall q :: !Hidden(paths, q) ==> See(a, q) == See(b, q) {
      SameEverywhere(RemoveAll(a, paths), RemoveAll(b, paths));
    }
  }

  /** The order and repetition of the paths do not matter, and removing twice is removing once. */
  lemma RemovalIsASet(v: Json, paths: seq<seq<string>>, paths': seq<seq<string>>)
    requires ProperPaths(paths)
    requires forall path :: path in paths <==> path in paths'
    ensures RemoveAll(v, paths') == RemoveAll(v, paths)
    ensures RemoveAll(RemoveAll(v, paths), paths') == RemoveAll(v, paths)
  {
    var once := RemoveAll(v, paths);
    forall q
      ensures See(RemoveAll(v, paths'), q) == See(once, q)
      ensures See(RemoveAll(once, paths'), q) == See(once, q)
    {
      SeeAfterRemoveAll(v, paths, q);
      SeeAfterRemoveAll(v, paths', q);
      SeeAfterRemoveAll(once, paths', q);
    }
    SameEverywhere(RemoveAll(v, paths'), once);
    SameEverywhere(RemoveAll(once, paths'), once);
  }
}

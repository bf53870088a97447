/** Namespace names are `org-space` and binding names are `user-role`: two strings joined with a
    dash.  This module says exactly when such a name determines its two parts. */
module Names {

  function Join(left: string, right: string): string {
    left + "-" + right
  }

  ghost predicate DashFree(s: string) {
    '-' !in s
  }

  /** `longer` is `shorter` followed by a dash and something: the only way two left parts collide. */
  ghost predicate Continues(shorter: string, longer: string) {
    shorter + "-" <= longer
  }

  lemma {:induction false} JoinInjective(left: string, right: string, left': string, right': string)
    requires DashFree(left) && DashFree(left')
    requires Join(left, right) == Join(left', right')
    ensures left == left' && right == right'
  {
    var joined := Join(left, right);
    assert joined[|left|] == '-' && joined[|left'|] == '-';
    assert forall i :: 0 <= i < |left| ==> joined[i] == left[i];
    assert forall i :: 0 <= i < |left'| ==> joined[i] == left'[i];
    assert |left| == |left'|;
    assert left == joined[..|left|] == left';
    assert right == joined[|left| + 1..] == right';
  }

  /** Two different left parts can produce the same joined name exactly when one continues the
      other with a dash. */
  lemma {:induction false} CollisionsExactly(left: string, left': string)
    requires left != left'
    ensures (exists right, right' :: Join(left, right) == Join(left', right'))
            <==> Continues(left, left') || Continues(left', left)
  {
    if right, right' :| Join(left, right) == Join(left', right') {
      if |left| < |left'| {
        CollisionContinues(left, right, left', right');
      } else {
        CollisionContinues(left', right', left, right);
      }
    }
    if Continues(left, left') {
      var rest := left'[|left| + 1..];
      assert left' == Join(left, rest);
      assert Join(left, Join(rest, "")) == Join(left', "");
    } else if Continues(left', left) {
      var rest := left[|left'| + 1..];
      assert left == Join(left', rest);
      assert Join(left, "") == Join(left', Join(rest, ""));
    }
  }

  lemma CollisionContinues(left: string, right: string, left': string, right': string)
    requires left != left' && |left| <= |left'|
    requires Join(left, right) == Join(left', right')
    ensures Continues(left, left')
  {
    var joined := Join(left, right);
    assert left == joined[..|left|];
    assert left' == joined[..|left'|];
    assert |left| < |left'|;
    assert left + "-" == joined[..|left| + 1] == left'[..|left| + 1];
  }

  lemma DashFreeNeverContinues(shorter: string, longer: string)
    requires DashFree(longer)
    ensures !Continues(shorter, longer)
  {
    assert (shorter + "-")[|shorter|] == '-';
    assert |shorter| < |longer| ==> longer[|shorter|] in longer;
  }

  lemma JoinStartsWith(left: string, right: string)
    ensures left + "-" <= Join(left, right)
  {
  }

  /** One name cannot start with both `left-` and `left'-` unless one left part continues the other. */
  lemma PrefixesAgree(left: string, left': string, name: string)
    requires left + "-" <= name && left' + "-" <= name
    ensures left == left' || Continues(left, left') || Continues(left', left)
  {
    assert name[..|left|] == left && name[..|left'|] == left';
    assert name[..|left| + 1] == left + "-" && name[..|left'| + 1] == left' + "-";
    if |left| < |left'| {
      assert left'[..|left| + 1] == name[..|left| + 1];
    } else if |left'| < |left| {
      assert left[..|left'| + 1] == name[..|left'| + 1];
    }
  }
}

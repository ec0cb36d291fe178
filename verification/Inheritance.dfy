/**
  Expansion of the inheritance graph (internal/authz/loader.go: expandInherits).
 */
module Inheritance {
  import opened Policies

  datatype Expansion = Expanded(permissions: seq<Permission>) | Refused(error: LoadError)

  /** Depth-first expansion; seen holds the roles on the visit stack. */
  function Expand(roles: Roles, parents: seq<string>, seen: set<string>): Expansion
    decreases roles.Keys - seen, |parents|
  {
    if parents == [] then Expanded([])
    else
      var p := parents[0];
      if p in seen then Refused(InheritsCycle)
      else if p !in roles then Refused(InheritsUnknown)
      else
        assert p in roles.Keys - seen && p !in roles.Keys - (seen + {p});
        match Expand(roles, roles[p].inherits, seen + {p})
        case Refused(e) => Refused(e)
        case Expanded(grand) =>
          match Expand(roles, parents[1..], seen)
          case Refused(e) => Refused(e)
          case Expanded(rest) => Expanded(roles[p].permissions + grand + rest)
  }

  /** The expansion of one role: what pass 2 appends to its own permissions. */
  function Inherited(roles: Roles, r: string): Expansion
    requires r in roles
  {
    Expand(roles, roles[r].inherits, {r})
  }

  // ---------------------------------------------------------------- the graph

  ghost predicate Edge(roles: Roles, a: string, b: string) {
    a in roles && b in roles[a].inherits
  }

  ghost predicate IsPath(roles: Roles, path: seq<string>) {
    path != [] && forall i :: 0 <= i < |path| - 1 ==> Edge(roles, path[i], path[i + 1])
  }

  ghost predicate HasCycle(roles: Roles) {
    exists path :: |path| >= 2 && IsPath(roles, path) && path[0] == path[|path| - 1]
  }

  ghost predicate HasUndefined(roles: Roles) {
    exists a, b :: Edge(roles, a, b) && b !in roles
  }

  /** What a successful expansion says about each parent in the list. */
  lemma {:induction false} ParentExpanded(roles: Roles, parents: seq<string>, seen: set<string>, q: string)
    requires Expand(roles, parents, seen).Expanded? && q in parents
    ensures q !in seen && q in roles && Expand(roles, roles[q].inherits, seen + {q}).Expanded?
    ensures forall p :: p in roles[q].permissions || p in Expand(roles, roles[q].inherits, seen + {q}).permissions
                        ==> p in Expand(roles, parents, seen).permissions
    decreases |parents|
  {
    if q != parents[0] {
      ParentExpanded(roles, parents[1..], seen, q);
    }
  }

  lemma {:induction false} PathTail(roles: Roles, path: seq<string>)
    requires IsPath(roles, path) && |path| >= 2
    ensures IsPath(roles, path[1..])
  {
    var tail := path[1..];
    forall k | 0 <= k < |tail| - 1 ensures Edge(roles, tail[k], tail[k + 1]) {
      assert Edge(roles, path[k + 1], path[k + 1 + 1]);
    }
  }

  /** From an accepted role every path avoids the visit stack and stays defined. */
  lemma {:induction false} PathsAvoidStack(roles: Roles, path: seq<string>, seen: set<string>, i: nat)
    requires IsPath(roles, path) && path[0] in roles && 1 <= i < |path|
    requires Expand(roles, roles[path[0]].inherits, seen).Expanded?
    ensures path[i] !in seen && path[i] in roles
    decreases |path|
  {
    assert Edge(roles, path[0], path[1]);
    ParentExpanded(roles, roles[path[0]].inherits, seen, path[1]);
    if i > 1 {
      var tail := path[1..];
      PathTail(roles, path);
      PathsAvoidStack(roles, tail, seen + {path[1]}, i - 1);
    }
  }

  ghost predicate OnStack(roles: Roles, stack: seq<string>, seen: set<string>) {
    && IsPath(roles, stack)
    && (forall i :: 0 <= i < |stack| ==> stack[i] in roles)
    && (forall x :: x in seen ==> x in stack)
  }

  lemma {:induction false} ClosedByParent(roles: Roles, stack: seq<string>, seen: set<string>, p: string)
    requires OnStack(roles, stack, seen) && Edge(roles, stack[|stack| - 1], p) && p in seen
    ensures HasCycle(roles)
  {
    var i :| 0 <= i < |stack| && stack[i] == p;
    var cycle := stack[i..] + [p];
    forall k | 0 <= k < |cycle| - 1 ensures Edge(roles, cycle[k], cycle[k + 1]) {
      if k < |cycle| - 2 {
        assert Edge(roles, stack[i + k], stack[i + k + 1]);
      }
    }
    assert IsPath(roles, cycle) && |cycle| >= 2 && cycle[0] == cycle[|cycle| - 1];
  }

  lemma {:induction false} PushParent(roles: Roles, stack: seq<string>, seen: set<string>, p: string)
    requires OnStack(roles, stack, seen) && Edge(roles, stack[|stack| - 1], p) && p in roles
    ensures OnStack(roles, stack + [p], seen + {p})
  {
    var longer := stack + [p];
    forall k | 0 <= k < |longer| - 1 ensures Edge(roles, longer[k], longer[k + 1]) {
      if k < |stack| - 1 {
        assert Edge(roles, stack[k], stack[k + 1]);
      }
    }
  }

  /** A refusal comes from a real cycle or a really undefined role. */
  lemma {:induction false} RefusalIsJustified(roles: Roles, parents: seq<string>, seen: set<string>, stack: seq<string>)
    requires OnStack(roles, stack, seen)
    requires forall p :: p in parents ==> Edge(roles, stack[|stack| - 1], p)
    requires Expand(roles, parents, seen).Refused?
    ensures Expand(roles, parents, seen).error == InheritsCycle ==> HasCycle(roles)
    ensures Expand(roles, parents, seen).error == InheritsUnknown ==> HasUndefined(roles)
    ensures Expand(roles, parents, seen).error in {InheritsCycle, InheritsUnknown}
    decreases roles.Keys - seen, |parents|
  {
    hide HasCycle;
    var p, last := parents[0], stack[|stack| - 1];
    assert p in parents && forall q :: q in parents[1..] ==> q in parents;
    if p in seen {
      ClosedByParent(roles, stack, seen, p);
    } else if p in roles {
      var deeper := Expand(roles, roles[p].inherits, seen + {p});
      if deeper.Refused? {
        PushParent(roles, stack, seen, p);
        assert p in roles.Keys - seen && p !in roles.Keys - (seen + {p});
        hide OnStack;
        RefusalIsJustified(roles, roles[p].inherits, seen + {p}, stack + [p]);
      } else {
        RefusalIsJustified(roles, parents[1..], seen, stack);
      }
    }
  }

  lemma {:induction false} RoleRefused(roles: Roles, r: string)
    requires r in roles && Inherited(roles, r).Refused?
    ensures Inherited(roles, r).error == InheritsCycle ==> HasCycle(roles)
    ensures Inherited(roles, r).error == InheritsUnknown ==> HasUndefined(roles)
    ensures Inherited(roles, r).error in {InheritsCycle, InheritsUnknown}
  {
    RefusalIsJustified(roles, roles[r].inherits, {r}, [r]);
  }

  ghost predicate AllExpand(roles: Roles) {
    forall r :: r in roles ==> Inherited(roles, r).Expanded?
  }

  /** Pass 2 accepts exactly the acyclic, fully defined graphs. */
  lemma {:induction false} AcceptsIffAcyclic(roles: Roles)
    ensures AllExpand(roles) <==> !HasCycle(roles) && !HasUndefined(roles)
  {
    if AllExpand(roles) {
      if HasCycle(roles) {
        var path :| |path| >= 2 && IsPath(roles, path) && path[0] == path[|path| - 1];
        assert Edge(roles, path[0], path[1]);
        assert Inherited(roles, path[0]).Expanded?;
        PathsAvoidStack(roles, path, {path[0]}, |path| - 1);
      }
      if HasUndefined(roles) {
        var a, b :| Edge(roles, a, b) && b !in roles;
        assert Inherited(roles, a).Expanded?;
        ParentExpanded(roles, roles[a].inherits, {a}, b);
      }
    } else {
      var r :| r in roles && Inherited(roles, r).Refused?;
      RoleRefused(roles, r);
    }
  }

  // ---------------------------------------------------------------- meaning

  /** A reflexive-transitive ancestor of r declares p. */
  ghost predicate Declares(roles: Roles, path: seq<string>, p: Permission) {
    && IsPath(roles, path)
    && path[|path| - 1] in roles
    && p in roles[path[|path| - 1]].permissions
  }

  ghost predicate Holds(roles: Roles, r: string, p: Permission) {
    exists path :: Declares(roles, path, p) && path[0] == r
  }

  lemma {:induction false} PathCons(roles: Roles, r: string, path: seq<string>, p: Permission)
    requires Declares(roles, path, p) && Edge(roles, r, path[0])
    ensures Declares(roles, [r] + path, p)
  {
    var longer := [r] + path;
    forall k | 0 <= k < |longer| - 1 ensures Edge(roles, longer[k], longer[k + 1]) {
      if k > 0 {
        assert Edge(roles, path[k - 1], path[k]);
      }
    }
  }

  lemma {:induction false} ExpandedIsHeld(roles: Roles, parents: seq<string>, seen: set<string>, p: Permission)
    returns (path: seq<string>)
    requires Expand(roles, parents, seen).Expanded? && p in Expand(roles, parents, seen).permissions
    ensures Declares(roles, path, p) && path[0] in parents
    decreases roles.Keys - seen, |parents|
  {
    var q := parents[0];
    var grand := Expand(roles, roles[q].inherits, seen + {q}).permissions;
    assert q in roles.Keys - seen && q !in roles.Keys - (seen + {q});
    if p in roles[q].permissions {
      path := [q];
    } else if p in grand {
      var above := ExpandedIsHeld(roles, roles[q].inherits, seen + {q}, p);
      PathCons(roles, q, above, p);
      path := [q] + above;
    } else {
      path := ExpandedIsHeld(roles, parents[1..], seen, p);
    }
  }

  lemma {:induction false} HeldIsExpanded(roles: Roles, path: seq<string>, seen: set<string>, p: Permission)
    requires Declares(roles, path, p) && |path| >= 2 && path[0] in roles
    requires Expand(roles, roles[path[0]].inherits, seen).Expanded?
    ensures p in Expand(roles, roles[path[0]].inherits, seen).permissions
    decreases |path|
  {
    var q := path[1];
    assert Edge(roles, path[0], q);
    ParentExpanded(roles, roles[path[0]].inherits, seen, q);
    if |path| > 2 {
      var tail := path[1..];
      PathTail(roles, path);
      HeldIsExpanded(roles, tail, seen + {q}, p);
    }
  }

  /** The unfolded list of a role holds exactly what the role and its ancestors declare. */
  lemma {:induction false} UnfoldedIsHeld(roles: Roles, r: string, p: Permission)
    requires r in roles && Inherited(roles, r).Expanded?
    ensures p in roles[r].permissions + Inherited(roles, r).permissions <==> Holds(roles, r, p)
  {
    if p in roles[r].permissions {
      assert Declares(roles, [r], p);
    } else if p in Inherited(roles, r).permissions {
      var above := ExpandedIsHeld(roles, roles[r].inherits, {r}, p);
      PathCons(roles, r, above, p);
      assert ([r] + above)[0] == r;
    }
    if Holds(roles, r, p) {
      var path :| Declares(roles, path, p) && path[0] == r;
      if |path| >= 2 {
        HeldIsExpanded(roles, path, {r}, p);
      }
    }
  }

  // ---------------------------------------------------------------- order independence

  lemma {:induction false} SeenIrrelevant(roles: Roles, parents: seq<string>, seen: set<string>, seen': set<string>)
    requires Expand(roles, parents, seen).Expanded? && Expand(roles, parents, seen').Expanded?
    ensures Expand(roles, parents, seen) == Expand(roles, parents, seen')
    decreases roles.Keys - seen, |parents|
  {
    if parents != [] {
      var p := parents[0];
      assert p in roles.Keys - seen && p !in roles.Keys - (seen + {p});
      SeenIrrelevant(roles, roles[p].inherits, seen + {p}, seen' + {p});
      SeenIrrelevant(roles, parents[1..], seen, seen');
    }
  }

  /** What a role ends up with. */
  function Flattened(roles: Roles, r: string): seq<Permission>
    requires r in roles && Inherited(roles, r).Expanded?
  {
    Dedup(roles[r].permissions + Inherited(roles, r).permissions)
  }

  /** Part of the roles, the done ones, have been rewritten in place. */
  ghost predicate Halfway(roles: Roles, cur: Roles, done: set<string>) {
    && cur.Keys == roles.Keys && done <= roles.Keys
    && (forall r :: r in done ==> Inherited(roles, r).Expanded?)
    && (forall r :: r in roles ==>
          cur[r] == if r in done then roles[r].(permissions := Flattened(roles, r)) else roles[r])
  }

  lemma {:induction false} CombineSame(own: seq<Permission>, own': seq<Permission>,
                                       grand: seq<Permission>, grand': seq<Permission>,
                                       rest: seq<Permission>, rest': seq<Permission>)
    requires own' == own || own' == Dedup(own + grand)
    requires Same(grand, grand') && Same(rest, rest')
    ensures Same(own + grand + rest, own' + grand' + rest')
  {
    SameRepeat(own, grand, grand');
    hide *;
    assert Same(own' + grand', own + grand);
    SameSymmetric(own' + grand', own + grand);
    SameConcat(own + grand, own' + grand', rest, rest');
  }

  lemma SameSymmetric(a: seq<Permission>, b: seq<Permission>)
    requires Same(a, b)
    ensures Same(b, a)
  {}

  /** An expansion that meets rewritten parents gives the same list up to duplicates. */
  lemma {:induction false} ExpandHalfway(roles: Roles, cur: Roles, done: set<string>, parents: seq<string>, seen: set<string>)
    requires Halfway(roles, cur, done)
    ensures var e, e' := Expand(roles, parents, seen), Expand(cur, parents, seen);
            if e.Refused? then e' == e else e'.Expanded? && Same(e.permissions, e'.permissions)
    decreases roles.Keys - seen, |parents|
  {
    if parents != [] {
      var p := parents[0];
      if p !in seen && p in roles {
        assert p in roles.Keys - seen && p !in roles.Keys - (seen + {p});
        assert cur[p].inherits == roles[p].inherits;
        ExpandHalfway(roles, cur, done, roles[p].inherits, seen + {p});
        ExpandHalfway(roles, cur, done, parents[1..], seen);
        var grand, grand' := Expand(roles, roles[p].inherits, seen + {p}), Expand(cur, roles[p].inherits, seen + {p});
        var rest, rest' := Expand(roles, parents[1..], seen), Expand(cur, parents[1..], seen);
        if grand.Expanded? && rest.Expanded? {
          if p in done {
            SeenIrrelevant(roles, roles[p].inherits, {p}, seen + {p});
          }
          hide Same, Dedup;
          CombineSame(roles[p].permissions, cur[p].permissions, grand.permissions, grand'.permissions,
                      rest.permissions, rest'.permissions);
        }
      }
    }
  }

  /** Rewriting one more role, from a half rewritten policy, gives it its final list. */
  lemma {:induction false} RewriteRole(roles: Roles, cur: Roles, done: set<string>, r: string)
    requires Halfway(roles, cur, done) && r in roles && r !in done
    ensures Inherited(cur, r).Refused? ==> Inherited(roles, r) == Inherited(cur, r)
    ensures Inherited(cur, r).Expanded? ==>
              && Inherited(roles, r).Expanded?
              && Dedup(cur[r].permissions + Inherited(cur, r).permissions) == Flattened(roles, r)
  {
    ExpandHalfway(roles, cur, done, roles[r].inherits, {r});
    if Inherited(cur, r).Expanded? {
      SameConcat(roles[r].permissions, roles[r].permissions, Inherited(roles, r).permissions, Inherited(cur, r).permissions);
    }
  }
}

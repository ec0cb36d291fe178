/**
  Hot reload and the diff it reports (internal/authz/reload.go).
 */
module Reload {
  import opened Policies
  import opened Inheritance
  import opened Loader
  import opened Engine
  import opened Options
  import Strings

  datatype Diff = Diff(added: seq<string>, removed: seq<string>, modified: seq<string>) {
    predicate IsEmpty() {
      added == [] && removed == [] && modified == []
    }
  }

  function KeysOf(perms: seq<Permission>): (keys: seq<string>)
    ensures |keys| == |perms|
  {
    seq(|perms|, i requires 0 <= i < |perms| => PermissionKey(perms[i]))
  }

  /** Two permission lists carry the same keys, as multisets. */
  ghost predicate SamePermissionKeys(a: seq<Permission>, b: seq<Permission>) {
    multiset(KeysOf(a)) == multiset(KeysOf(b))
  }

  method RolePermsEqual(a: Role, b: Role) returns (equal: bool)
    ensures equal <==> SamePermissionKeys(a.permissions, b.permissions)
  {
    hide KeysOf, Strings.Sort, Strings.Sorted;
    var ka, kb := KeysOf(a.permissions), KeysOf(b.permissions);
    if |a.permissions| != |b.permissions| {
      assert |multiset(ka)| != |multiset(kb)|;
      return false;
    }
    Strings.SortCanonical(ka, kb);
    Strings.SortSorts(ka);
    Strings.SortSorts(kb);
    var sa, sb := Strings.Sort(ka), Strings.Sort(kb);
    assert |multiset(sa)| == |multiset(sb)|;
    for i := 0 to |sa|
      invariant sa[..i] == sb[..i]
    {
      if sa[i] != sb[i] {
        return false;
      }
    }
    assert sa[..|sa|] == sa && sb[..|sb|] == sb;
    return true;
  }

  function RolesOf(p: Option<Policy>): Roles {
    if p.None? then map[] else p.value.roles
  }

  ghost predicate Modified(prev: Roles, next: Roles, name: string) {
    name in prev && name in next && !SamePermissionKeys(prev[name].permissions, next[name].permissions)
  }

  /** The list names every member of the set once and nothing else. */
  ghost predicate Enumerates(s: seq<string>, names: set<string>) {
    multiset(s) == multiset(names)
  }

  lemma EnumeratesMore(s: seq<string>, names: set<string>, x: string)
    requires Enumerates(s, names) && x !in names
    ensures Enumerates(s + [x], names + {x})
  {}

  lemma EnumeratesSorted(s: seq<string>, names: set<string>)
    requires Enumerates(s, names)
    ensures Enumerates(Strings.Sort(s), names) && Strings.Sorted(Strings.Sort(s))
  {
    Strings.SortSorts(s);
  }

  lemma EnumeratesEmpty(s: seq<string>, names: set<string>)
    requires Enumerates(s, names)
    ensures s == [] <==> names == {}
  {
    assert |multiset(s)| == |multiset(names)|;
  }

  ghost function ModifiedRoles(prev: Roles, next: Roles, among: set<string>): set<string> {
    set name | name in among && Modified(prev, next, name)
  }

  /** Each list is sorted and names exactly the roles that were added, removed or changed. */
  ghost predicate Describes(d: Diff, prev: Roles, next: Roles) {
    && Strings.Sorted(d.added) && Enumerates(d.added, next.Keys - prev.Keys)
    && Strings.Sorted(d.removed) && Enumerates(d.removed, prev.Keys - next.Keys)
    && Strings.Sorted(d.modified) && Enumerates(d.modified, ModifiedRoles(prev, next, next.Keys))
  }

  /** The new and the changed roles among those already visited. */
  ghost function NewsSoFar(prev: Roles, next: Roles, todo: set<string>): set<string> {
    next.Keys - todo - prev.Keys
  }

  ghost function ChangesSoFar(prev: Roles, next: Roles, todo: set<string>): set<string> {
    ModifiedRoles(prev, next, next.Keys - todo)
  }

  lemma VisitNew(prev: Roles, next: Roles, todo: set<string>, name: string)
    requires name in todo && todo <= next.Keys && name !in prev
    ensures name !in NewsSoFar(prev, next, todo)
    ensures NewsSoFar(prev, next, todo - {name}) == NewsSoFar(prev, next, todo) + {name}
    ensures ChangesSoFar(prev, next, todo - {name}) == ChangesSoFar(prev, next, todo)
  {}

  lemma VisitOld(prev: Roles, next: Roles, todo: set<string>, name: string)
    requires name in todo && todo <= next.Keys && name in prev
    ensures name !in ChangesSoFar(prev, next, todo)
    ensures NewsSoFar(prev, next, todo - {name}) == NewsSoFar(prev, next, todo)
    ensures ChangesSoFar(prev, next, todo - {name})
            == ChangesSoFar(prev, next, todo) + if Modified(prev, next, name) then {name} else {}
  {
    hide Modified;
  }

  lemma VisitEnds(prev: Roles, next: Roles)
    ensures NewsSoFar(prev, next, next.Keys) == {} && ChangesSoFar(prev, next, next.Keys) == {}
    ensures NewsSoFar(prev, next, {}) == next.Keys - prev.Keys
    ensures ChangesSoFar(prev, next, {}) == ModifiedRoles(prev, next, next.Keys)
    ensures Enumerates([], {})
  {
    hide Modified;
    assert next.Keys - {} == next.Keys;
  }

  method DiffPolicies(prev: Option<Policy>, next: Policy) returns (d: Diff)
    ensures Describes(d, RolesOf(prev), next.roles)
  {
    hide Enumerates, NewsSoFar, ChangesSoFar, ModifiedRoles, SamePermissionKeys, Strings.Sort, Strings.Sorted;
    var before, after := RolesOf(prev), next.roles;
    var added: seq<string>, modified: seq<string>, todo := [], [], after.Keys;
    VisitEnds(before, after);
    while todo != {}
      invariant todo <= after.Keys
      invariant Enumerates(added, NewsSoFar(before, after, todo))
      invariant Enumerates(modified, ChangesSoFar(before, after, todo))
      decreases todo
    {
      var name :| name in todo;
      if name !in before {
        VisitNew(before, after, todo, name);
        EnumeratesMore(added, NewsSoFar(before, after, todo), name);
        added := added + [name];
      } else {
        VisitOld(before, after, todo, name);
        var equal := RolePermsEqual(before[name], after[name]);
        if equal {
          assert ChangesSoFar(before, after, todo) + {} == ChangesSoFar(before, after, todo);
        } else {
          EnumeratesMore(modified, ChangesSoFar(before, after, todo), name);
          modified := modified + [name];
        }
      }
      todo := todo - {name};
    }
    var removed := Removed(before, after);
    EnumeratesSorted(added, after.Keys - before.Keys);
    EnumeratesSorted(modified, ModifiedRoles(before, after, after.Keys));
    return Diff(Strings.Sort(added), removed, Strings.Sort(modified));
  }

  /** The second loop: roles that are gone, sorted. */
  method Removed(prev: Roles, next: Roles) returns (sorted: seq<string>)
    ensures Strings.Sorted(sorted) && Enumerates(sorted, prev.Keys - next.Keys)
  {
    var removed: seq<string>, todo := [], prev.Keys;
    assert Enumerates([], {});
    hide Enumerates, Strings.Sort, Strings.Sorted;
    assert prev.Keys - todo - next.Keys == {};
    while todo != {}
      invariant todo <= prev.Keys && Enumerates(removed, prev.Keys - todo - next.Keys)
      decreases todo
    {
      var name :| name in todo;
      ghost var gone := prev.Keys - todo - next.Keys;
      todo := todo - {name};
      if name !in next {
        EnumeratesMore(removed, gone, name);
        removed := removed + [name];
        assert prev.Keys - todo - next.Keys == gone + {name};
      } else {
        assert prev.Keys - todo - next.Keys == gone;
      }
    }
    assert prev.Keys - todo - next.Keys == prev.Keys - next.Keys;
    EnumeratesSorted(removed, prev.Keys - next.Keys);
    return Strings.Sort(removed);
  }

  /** Loads a file into an engine; a refused file changes nothing. */
  method ReloadBytes(engine: PolicyEngine, file: Decoded) returns (r: Result<Diff>)
    modifies engine
    ensures r.Ok? <==> file.Decoded? && Acceptable(file.raw)
    ensures r.Err? ==> engine.current == old(engine.current)
    ensures r.Ok? ==> engine.current == Some(Loaded(file.raw))
                      && Describes(r.value, RolesOf(old(engine.current)), Loaded(file.raw).roles)
  {
    hide Acceptable, Loaded, Describes;
    var next := LoadBytes(file);
    if next.Err? {
      return Err(next.error);
    }
    var prev := engine.current;
    engine.Replace(Some(next.value));
    var d := DiffPolicies(prev, next.value);
    return Ok(d);
  }

  // ---------------------------------------------------------------- an empty diff changes no answer

  lemma KeyOfMember(perms: seq<Permission>, key: string)
    ensures key in multiset(KeysOf(perms)) <==> exists p :: p in perms && PermissionKey(p) == key
  {
    hide PermissionKey;
    var keys := KeysOf(perms);
    if key in multiset(keys) {
      var i :| 0 <= i < |keys| && keys[i] == key;
      assert perms[i] in perms;
    }
    if exists p :: p in perms && PermissionKey(p) == key {
      var p :| p in perms && PermissionKey(p) == key;
      var i :| 0 <= i < |perms| && perms[i] == p;
      assert keys[i] == key;
    }
  }

  /** Equal keys across the two lists mean equal permissions. */
  ghost predicate Agree(a: seq<Permission>, b: seq<Permission>) {
    forall p, q :: p in a && q in b && PermissionKey(p) == PermissionKey(q) ==> p == q
  }

  ghost predicate SameMembers(a: seq<Permission>, b: seq<Permission>) {
    forall p :: p in a <==> p in b
  }

  lemma {:induction false} KeyShared(a: seq<Permission>, b: seq<Permission>, p: Permission) returns (q: Permission)
    requires SamePermissionKeys(a, b) && p in a
    ensures q in b && PermissionKey(q) == PermissionKey(p)
  {
    hide PermissionKey, KeysOf;
    KeyOfMember(a, PermissionKey(p));
    KeyOfMember(b, PermissionKey(p));
    q :| q in b && PermissionKey(q) == PermissionKey(p);
  }

  /**
    Role by role the condition is exact: two loaded lists the diff calls equal hold the same
    permissions exactly when they agree on what their keys stand for.
   */
  lemma {:induction false} SameKeysSameMembers(a: seq<Permission>, b: seq<Permission>)
    requires SamePermissionKeys(a, b) && Unambiguous(b)
    ensures SameMembers(a, b) <==> Agree(a, b)
  {
    hide PermissionKey, KeysOf;
    if Agree(a, b) {
      forall p | p in a || p in b ensures p in a <==> p in b {
        if p in a {
          var q := KeyShared(a, b, p);
        } else {
          var q := KeyShared(b, a, p);
        }
      }
    }
  }

  /** Roles of one name agree on what their keys stand for. */
  ghost predicate RolesAgree(prev: Roles, next: Roles) {
    forall r :: r in prev && r in next ==> Agree(prev[r].permissions, next[r].permissions)
  }

  ghost predicate Unchanged(prev: Roles, next: Roles) {
    && prev.Keys == next.Keys
    && forall r :: r in prev ==> SamePermissionKeys(prev[r].permissions, next[r].permissions)
  }

  lemma EmptyDiffUnchanged(d: Diff, prev: Roles, next: Roles)
    requires Describes(d, prev, next)
    ensures d.IsEmpty() <==> Unchanged(prev, next)
  {
    hide SamePermissionKeys, Strings.Sorted, Enumerates;
    var added, removed, modified := next.Keys - prev.Keys, prev.Keys - next.Keys, ModifiedRoles(prev, next, next.Keys);
    EnumeratesEmpty(d.added, added);
    EnumeratesEmpty(d.removed, removed);
    EnumeratesEmpty(d.modified, modified);
    assert prev.Keys == next.Keys <==> added == {} && removed == {};
    if modified == {} {
      forall r | r in next ensures !Modified(prev, next, r) {
        assert r !in modified;
      }
    }
  }

  lemma {:induction false} SamePermitting(a: seq<Permission>, b: seq<Permission>, q: Request)
    requires SameMembers(a, b)
    ensures FirstPermitting(a, q).Some? <==> FirstPermitting(b, q).Some?
  {
    hide Permits;
    FirstPermittingIff(a, q);
    FirstPermittingIff(b, q);
  }

  lemma {:induction false} SameDecision(prev: Roles, next: Roles, names: seq<string>, q: Request)
    requires prev.Keys == next.Keys && forall r :: r in prev ==> SameMembers(prev[r].permissions, next[r].permissions)
    ensures var d, d' := Decide(prev, names, q), Decide(next, names, q);
            d.Some? == d'.Some? && (d.Some? ==> d.value.role == d'.value.role)
    decreases |names|
  {
    if names != [] {
      hide SameMembers, FirstPermitting;
      if names[0] in prev {
        SamePermitting(prev[names[0]].permissions, next[names[0]].permissions, q);
      }
      SameDecision(prev, next, names[1..], q);
    }
  }

  predicate SameAnswer(a: Answer, b: Answer) {
    match (a, b)
    case (Answered(Granted(g)), Answered(Granted(h))) => g.role == h.role
    case _ => a == b
  }

  lemma {:induction false} LoadedUnambiguous(raw: YamlPolicy, r: string)
    requires AllExpand(Declared(raw)) && r in Loaded(raw).roles
    ensures Unambiguous(Loaded(raw).roles[r].permissions)
  {
    var roles := Declared(raw);
    hide Declared, Expand, Unambiguous;
    DedupUnambiguous(roles[r].permissions + Inherited(roles, r).permissions, {});
  }

  /** A reload that reports no change leaves every answer to every principal as it was. */
  lemma {:induction false} EmptyDiffSameAnswers(raw: YamlPolicy, raw': YamlPolicy, d: Diff,
                                                p: Option<Principal>, resource: string, action: string, attrs: Attrs)
    requires AllExpand(Declared(raw)) && AllExpand(Declared(raw'))
    requires RolesAgree(Loaded(raw).roles, Loaded(raw').roles)
    requires Describes(d, Loaded(raw).roles, Loaded(raw').roles) && d.IsEmpty()
    ensures SameAnswer(AnswerOf(Some(Loaded(raw)), p, resource, action, attrs),
                       AnswerOf(Some(Loaded(raw')), p, resource, action, attrs))
  {
    var prev, next := Loaded(raw).roles, Loaded(raw').roles;
    EmptyDiffUnchanged(d, prev, next);
    hide Agree, SameMembers, SamePermissionKeys, Decide, Loaded, AllExpand, Declared, Describes, Unambiguous;
    forall r | r in prev ensures SameMembers(prev[r].permissions, next[r].permissions) {
      LoadedUnambiguous(raw', r);
      SameKeysSameMembers(prev[r].permissions, next[r].permissions);
    }
    if p.Some? {
      SameDecision(prev, next, PrincipalRoles(p.value), Request(resource, action, Injected(attrs, p.value.id)));
    }
  }

  lemma {:induction false} LoadedIsSafe(raw: YamlPolicy, r: string, p: Permission)
    requires AllExpand(Declared(raw)) && KeySafeRoles(Declared(raw))
    requires r in Loaded(raw).roles && p in Loaded(raw).roles[r].permissions
    ensures KeySafe(p)
  {
    var roles := Declared(raw);
    hide KeySafe, Declared, Expand, Clashless, Dedup;
    FlattenedIsHeld(roles, r, p);
  }

  /** Separator-free names never disagree. */
  lemma {:induction false} KeySafeAgree(raw: YamlPolicy, raw': YamlPolicy)
    requires AllExpand(Declared(raw)) && KeySafeRoles(Declared(raw))
    requires AllExpand(Declared(raw')) && KeySafeRoles(Declared(raw'))
    ensures RolesAgree(Loaded(raw).roles, Loaded(raw').roles)
  {
    hide KeySafe, KeySafeRoles, PermissionKey, Loaded, AllExpand, Declared;
    var prev, next := Loaded(raw).roles, Loaded(raw').roles;
    forall r, p, q | r in prev && r in next && p in prev[r].permissions && q in next[r].permissions
                     && PermissionKey(p) == PermissionKey(q)
      ensures p == q
    {
      LoadedIsSafe(raw, r, p);
      LoadedIsSafe(raw', r, q);
      KeyInjective(p, q);
    }
  }

  // ---------------------------------------------------------------- a reload that hides a change

  lemma {:induction false} ClashAlone(first: bool)
    ensures Acceptable(Sample([ClashOf(first)])) && AllExpand(Declared(Sample([ClashOf(first)])))
    ensures var roles := Loaded(Sample([ClashOf(first)])).roles;
            && roles.Keys == {"r", "root"} && roles["r"].permissions == [ClashGrant(first)]
            && roles["root"].permissions == [Permission(WILDCARD, ACTION_ADMIN, [])]
  {
    SampleLoads([ClashOf(first)]);
    hide *;
    assert HydratedAll([ClashOf(first)]) == [ClashGrant(first)] by {
      ClashHydratedAlone(first);
    }
    DedupOne(ClashGrant(first));
  }

  lemma {:induction false} ClashHydratedAlone(first: bool)
    ensures HydratedAll([ClashOf(first)]) == [ClashGrant(first)]
  {
    hide Hydrated, ClashOf, ClashGrant;
  }

  lemma {:induction false} ClashSameKeys()
    ensures SamePermissionKeys([ClashGrant(true)], [ClashGrant(false)])
  {
    KeysClash();
    hide PermissionKey;
    assert KeysOf([ClashGrant(true)]) == KeysOf([ClashGrant(false)]);
  }

  lemma {:induction false} DecideOne(roles: Roles, r: string, p: Permission, q: Request)
    requires r in roles && roles[r].permissions == [p]
    ensures Decide(roles, [r], q).Some? <==> Permits(p, q)
  {
    DecideIff(roles, [r], q);
    hide Permits, Decide;
    assert p in roles[r].permissions && r in [r];
  }

  lemma {:induction false} UnchangedDiff(prev: Roles, next: Roles)
    requires Unchanged(prev, next)
    ensures Describes(Diff([], [], []), prev, next)
  {
    hide SamePermissionKeys;
    assert next.Keys - prev.Keys == {} && prev.Keys - next.Keys == {} && ModifiedRoles(prev, next, next.Keys) == {};
  }

  /** Two accepted files with an empty diff that answer one request differently. */
  lemma {:induction false} ClashHidesChange(raw: YamlPolicy, raw': YamlPolicy, q: Request)
    requires raw == Sample([ClashOf(true)]) && raw' == Sample([ClashOf(false)]) && q == Request("a:b", "c", map[])
    ensures Acceptable(raw) && Acceptable(raw') && Describes(Diff([], [], []), Loaded(raw).roles, Loaded(raw').roles)
    ensures Decide(Loaded(raw).roles, ["r"], q).None? && Decide(Loaded(raw').roles, ["r"], q).Some?
  {
    hide *;
    ClashAlone(true);
    ClashAlone(false);
    ClashSameKeys();
    ClashPermits(q);
    var prev, next := Loaded(raw).roles, Loaded(raw').roles;
    SampleUnchanged(prev, next);
    UnchangedDiff(prev, next);
    DecideOne(prev, "r", ClashGrant(true), q);
    DecideOne(next, "r", ClashGrant(false), q);
  }

  lemma {:induction false} SampleUnchanged(prev: Roles, next: Roles)
    requires prev.Keys == next.Keys == {"r", "root"} && prev["root"].permissions == next["root"].permissions
    requires SamePermissionKeys(prev["r"].permissions, next["r"].permissions)
    ensures Unchanged(prev, next)
  {
    hide KeysOf;
  }
}

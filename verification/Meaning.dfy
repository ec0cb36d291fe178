/**
  What a policy file means, read off the file itself: which requests it entitles a principal to, and
  that a loaded engine answers accordingly (internal/authz/loader.go, engine.go).
 */
module Meaning {
  import opened Policies
  import opened Inheritance
  import opened Loader
  import opened Engine
  import opened Options

  // ---------------------------------------------------------------- one permission

  /** A condition holds: its attribute is present and equals the value, or, for not-self, differs from the principal. */
  ghost predicate Passes(key: string, value: string, attrs: Attrs) {
    && key in attrs
    && (value != "not-self" ==> attrs[key] == value)
    && (value == "not-self" ==> "principal_id" in attrs && attrs[key] != attrs["principal_id"])
  }

  /** A wildcard resource covers every resource; a wildcard or admin action covers every action. */
  ghost predicate Covers(resource: string, action: string, q: Request) {
    resource in {"*", q.resource} && action in {"admin", "*", q.action}
  }

  lemma {:induction false} PermitsMeans(p: Permission, q: Request)
    ensures Permits(p, q) <==>
            Covers(p.resource, p.action, q) && forall c :: c in p.conditions ==> Passes(c.key, c.value, q.attrs)
  {
    forall c ensures Satisfied(c, q.attrs) <==> Passes(c.key, c.value, q.attrs) {}
    hide Satisfied, Passes;
  }

  /** The same for an entry of the file, its conditions read from the map. */
  ghost predicate EntryPermits(yp: YamlPermission, q: Request) {
    Covers(yp.resource, yp.action, q) && forall k :: k in yp.conditions ==> Passes(k, yp.conditions[k], q.attrs)
  }

  lemma {:induction false} CarriedPermits(p: Permission, yp: YamlPermission, q: Request)
    requires Carries(p, yp)
    ensures Permits(p, q) <==> EntryPermits(yp, q)
  {
    PermitsMeans(p, q);
    hide Permits, Passes, Covers;
    assert forall c :: c in p.conditions ==> Condition(c.key, c.value) in p.conditions;
    forall k | k in yp.conditions ensures Condition(k, yp.conditions[k]) in p.conditions {}
  }

  // ---------------------------------------------------------------- the answer of an engine

  /** The attributes a decision looks at: the caller's, with the principal's own ID unless the caller set one. */
  ghost function WithSelf(attrs: Attrs, id: string): Attrs {
    if "principal_id" in attrs then attrs else attrs["principal_id" := id]
  }

  /** A permission of a role of the principal that allows the request. */
  ghost predicate Allows(policy: Policy, p: Principal, q: Request, g: Grant) {
    && g.role in PrincipalRoles(p) && g.role in policy.roles && g.permission in policy.roles[g.role].permissions
    && Covers(g.permission.resource, g.permission.action, q)
    && forall c :: c in g.permission.conditions ==> Passes(c.key, c.value, q.attrs)
  }

  lemma {:induction false} AnswerIsDecision(policy: Policy, p: Principal, resource: string, action: string, attrs: Attrs)
    ensures var d := Decide(policy.roles, PrincipalRoles(p), Request(resource, action, WithSelf(attrs, p.id)));
            AnswerOf(Some(policy), Some(p), resource, action, attrs)
            == Answered(if d.None? then Denied else Granted(d.value))
  {
    hide PrincipalRoles;
    assert WithSelf(attrs, p.id) == Injected(attrs, p.id);
  }

  /** An engine grants a request exactly when some permission of some role of the principal allows it, and names one. */
  lemma {:induction false} GrantedIffAllowed(policy: Policy, p: Principal, resource: string, action: string, attrs: Attrs)
    ensures var q := Request(resource, action, WithSelf(attrs, p.id));
            var answer := AnswerOf(Some(policy), Some(p), resource, action, attrs);
            && answer.Answered?
            && (answer.decision.Granted? <==> exists g :: Allows(policy, p, q, g))
            && (answer.decision.Granted? ==> Allows(policy, p, q, answer.decision.grant))
  {
    hide Permits, Covers, Passes, PrincipalRoles, AnswerOf, WithSelf, Decide;
    var q, names := Request(resource, action, WithSelf(attrs, p.id)), PrincipalRoles(p);
    AnswerIsDecision(policy, p, resource, action, attrs);
    DecideIff(policy.roles, names, q);
    var d := Decide(policy.roles, names, q);
    if d.Some? {
      DecidedGrant(policy.roles, names, q);
      PermitsMeans(d.value.permission, q);
      assert Allows(policy, p, q, d.value);
    }
    if g :| Allows(policy, p, q, g) {
      PermitsMeans(g.permission, q);
      assert d.Some?;
    }
  }

  lemma {:induction false} DecidedGrant(roles: Roles, names: seq<string>, q: Request)
    requires Decide(roles, names, q).Some?
    ensures var g := Decide(roles, names, q).value;
            g.role in names && g.role in roles && g.permission in roles[g.role].permissions && Permits(g.permission, q)
    decreases |names|
  {
    hide Permits;
    if names[0] in roles && FirstPermitting(roles[names[0]].permissions, q).Some? {
      FirstPermits(roles[names[0]].permissions, q);
    } else {
      DecidedGrant(roles, names[1..], q);
    }
  }

  lemma {:induction false} FirstPermits(perms: seq<Permission>, q: Request)
    requires FirstPermitting(perms, q).Some?
    ensures FirstPermitting(perms, q).value in perms && Permits(FirstPermitting(perms, q).value, q)
    decreases |perms|
  {
    hide Permits;
    if !Permits(perms[0], q) {
      FirstPermits(perms[1..], q);
    }
  }

  /** A condition that stands in the way: missing, the principal itself, or another text. */
  ghost predicate Blocks(c: Condition, attrs: Attrs, self: string) {
    || c.key !in attrs
    || (c.value == "not-self" && attrs[c.key] == self)
    || (c.value != "not-self" && attrs[c.key] != c.value)
  }

  /** Fail closed: when every permission that covers the request has such a condition, the request is denied. */
  lemma {:induction false} BlockedIsDenied(policy: Policy, p: Principal, resource: string, action: string, attrs: Attrs)
    requires var q := Request(resource, action, WithSelf(attrs, p.id));
             forall name, perm :: name in PrincipalRoles(p) && name in policy.roles && perm in policy.roles[name].permissions
                                  && Covers(perm.resource, perm.action, q)
                                  ==> exists c :: c in perm.conditions && Blocks(c, q.attrs, q.attrs["principal_id"])
    ensures AnswerOf(Some(policy), Some(p), resource, action, attrs) == Answered(Denied)
  {
    var q := Request(resource, action, WithSelf(attrs, p.id));
    GrantedIffAllowed(policy, p, resource, action, attrs);
    forall perm: Permission, c | c in perm.conditions && Blocks(c, q.attrs, q.attrs["principal_id"]) ensures !Passes(c.key, c.value, q.attrs) {}
    hide PrincipalRoles, AnswerOf, Covers, Passes, Blocks;
  }

  /** Where the role names of a principal come from. */
  lemma {:induction false} RoleNames(p: Principal, name: string)
    ensures p.roles != [] ==> PrincipalRoles(p) == p.roles
    ensures p.roles == [] && (p.claims.None? || "roles" !in p.claims.value) ==> PrincipalRoles(p) == []
    ensures p.roles == [] && p.claims.Some? && "roles" in p.claims.value ==>
              match p.claims.value["roles"]
              case Names(names) => PrincipalRoles(p) == names
              case Name(one) => name in PrincipalRoles(p) <==> name == one != ""
              case Items(items) => name in PrincipalRoles(p) <==> name != "" && Text(name) in items
              case OtherClaim => PrincipalRoles(p) == []
  {
    if p.claims.Some? && "roles" in p.claims.value && p.claims.value["roles"].Items? {
      TextsMember(p.claims.value["roles"].items, name);
    }
  }

  lemma {:induction false} TextsMember(items: seq<Item>, name: string)
    ensures name in Texts(items) <==> name != "" && Text(name) in items
    decreases |items|
  {
    if items != [] {
      TextsMember(items[1..], name);
      assert items == [items[0]] + items[1..];
    }
  }

  // ---------------------------------------------------------------- the meaning of a file

  /** Each role of the path inherits from the next, and the last one is defined. */
  ghost predicate Lineage(raw: YamlPolicy, path: seq<string>) {
    && path != [] && (forall i :: 0 <= i < |path| ==> path[i] in raw.roles)
    && forall i :: 0 <= i < |path| - 1 ==> path[i + 1] in raw.roles[path[i]].inherits
  }

  /** Some role of the principal, or an ancestor of it, has an entry in the file that allows the request. */
  ghost predicate FileEntitles(raw: YamlPolicy, names: seq<string>, q: Request) {
    exists path, yp ::
      Lineage(raw, path) && path[0] in names && yp in raw.roles[path[|path| - 1]].permissions && EntryPermits(yp, q)
  }

  lemma {:induction false} LineageIsPath(raw: YamlPolicy, path: seq<string>)
    ensures Lineage(raw, path) <==> IsPath(Declared(raw), path) && path[|path| - 1] in Declared(raw)
  {
    hide HydratedAll;
    if IsPath(Declared(raw), path) && path[|path| - 1] in Declared(raw) {
      forall i | 0 <= i < |path| ensures path[i] in raw.roles {
        if i < |path| - 1 {
          assert Edge(Declared(raw), path[i], path[i + 1]);
        }
      }
      forall i | 0 <= i < |path| - 1 ensures path[i + 1] in raw.roles[path[i]].inherits {
        assert Edge(Declared(raw), path[i], path[i + 1]);
      }
    }
  }

  lemma {:induction false} HydratedCarries(yp: YamlPermission)
    ensures Carries(Hydrated(yp), yp)
  {
    hide Conditions, Lists;
    ConditionsList(yp.conditions);
  }

  lemma {:induction false} EntitledByFile(raw: YamlPolicy, names: seq<string>, q: Request)
    requires FileEntitles(raw, names, q)
    ensures Entitled(Declared(raw), names, q)
  {
    hide EntryPermits, Permits, Carries, Conditions, Edge;
    var path, yp :| Lineage(raw, path) && path[0] in names && yp in raw.roles[path[|path| - 1]].permissions && EntryPermits(yp, q);
    LineageIsPath(raw, path);
    var yps := raw.roles[path[|path| - 1]].permissions;
    var i :| 0 <= i < |yps| && yps[i] == yp;
    assert HydratedAll(yps)[i] == Hydrated(yp);
    HydratedCarries(yp);
    CarriedPermits(Hydrated(yp), yp, q);
    assert Declares(Declared(raw), path, Hydrated(yp));
    assert Holds(Declared(raw), path[0], Hydrated(yp));
  }

  lemma {:induction false} FileByEntitled(raw: YamlPolicy, names: seq<string>, q: Request)
    requires Entitled(Declared(raw), names, q)
    ensures FileEntitles(raw, names, q)
  {
    hide EntryPermits, Permits, Carries, Conditions, Edge;
    var name, p :| name in names && Holds(Declared(raw), name, p) && Permits(p, q);
    var path :| Declares(Declared(raw), path, p) && path[0] == name;
    LineageIsPath(raw, path);
    var yps := raw.roles[path[|path| - 1]].permissions;
    var i :| 0 <= i < |yps| && HydratedAll(yps)[i] == p;
    HydratedCarries(yps[i]);
    CarriedPermits(p, yps[i], q);
  }

  /**
    From the file to the answer: an engine that loaded the file grants a principal only what the
    file entitles its roles to, and all of it when no role of the principal has clashing keys.
   */
  lemma {:induction false} LoadedFileAnswers(raw: YamlPolicy, p: Principal, resource: string, action: string, attrs: Attrs)
    requires AllExpand(Declared(raw))
    ensures var q := Request(resource, action, WithSelf(attrs, p.id));
            var answer := AnswerOf(Some(Loaded(raw)), Some(p), resource, action, attrs);
            && answer.Answered?
            && (answer.decision.Granted? ==> FileEntitles(raw, PrincipalRoles(p), q))
            && ((forall name :: name in PrincipalRoles(p) ==> Clashless(Declared(raw), name)) ==>
                  (answer.decision.Granted? <==> FileEntitles(raw, PrincipalRoles(p), q)))
  {
    hide *;
    var q, names := Request(resource, action, WithSelf(attrs, p.id)), PrincipalRoles(p);
    AnswerIsDecision(Loaded(raw), p, resource, action, attrs);
    FlatteningPreservesMeaning(raw, names, q);
    if FileEntitles(raw, names, q) {
      EntitledByFile(raw, names, q);
    }
    if Entitled(Declared(raw), names, q) {
      FileByEntitled(raw, names, q);
    }
  }
}

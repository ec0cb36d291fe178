/**
  Authorization decisions (internal/authz/engine.go).

  Attribute values are modelled by the text that fmt.Sprint renders them to, which is all the
  matcher looks at.
 */
module Engine {
  import opened Policies
  import opened Inheritance
  import opened Loader
  import Strings
  import opened Options

  datatype Item = Text(text: string) | NotText

  datatype Claim = Names(names: seq<string>) | Name(name: string) | Items(items: seq<Item>) | OtherClaim

  datatype Principal = Principal(id: string, roles: seq<string>, claims: Option<map<string, Claim>>)

  type Attrs = map<string, string>

  function Texts(items: seq<Item>): seq<string> {
    if items == [] then []
    else if items[0].Text? && items[0].text != "" then [items[0].text] + Texts(items[1..])
    else Texts(items[1..])
  }

  function PrincipalRoles(p: Principal): seq<string> {
    if p.roles != [] then p.roles
    else if p.claims.None? || "roles" !in p.claims.value then []
    else match p.claims.value["roles"]
      case Names(names) => names
      case Name(name) => if name == "" then [] else [name]
      case Items(items) => Texts(items)
      case OtherClaim => []
  }

  // ---------------------------------------------------------------- matching

  predicate MatchesResource(policy: string, request: string) {
    policy == WILDCARD || policy == request
  }

  predicate MatchesAction(policy: string, request: string) {
    policy == ACTION_ADMIN || policy == WILDCARD || policy == request
  }

  predicate Satisfied(c: Condition, attrs: Attrs) {
    && c.key in attrs
    && if c.value == NOT_SELF then PRINCIPAL_ID in attrs && attrs[PRINCIPAL_ID] != attrs[c.key]
       else attrs[c.key] == c.value
  }

  predicate AllSatisfied(conditions: seq<Condition>, attrs: Attrs) {
    forall c :: c in conditions ==> Satisfied(c, attrs)
  }

  datatype Request = Request(resource: string, action: string, attrs: Attrs)

  predicate Permits(p: Permission, q: Request) {
    MatchesResource(p.resource, q.resource) && MatchesAction(p.action, q.action) && AllSatisfied(p.conditions, q.attrs)
  }

  method EvaluateConditions(conditions: seq<Condition>, attrs: Attrs) returns (allowed: bool)
    ensures allowed <==> AllSatisfied(conditions, attrs)
  {
    for i := 0 to |conditions|
      invariant forall j :: 0 <= j < i ==> Satisfied(conditions[j], attrs)
    {
      var c := conditions[i];
      assert c in conditions;
      if c.key !in attrs {
        return false;
      }
      var got := attrs[c.key];
      if c.value == NOT_SELF {
        if PRINCIPAL_ID !in attrs {
          return false;
        }
        if attrs[PRINCIPAL_ID] == got {
          return false;
        }
        continue;
      }
      if got != c.value {
        return false;
      }
    }
    return true;
  }

  /** The first permission of a list that permits a request. */
  function FirstPermitting(perms: seq<Permission>, q: Request): Option<Permission> {
    if perms == [] then None else if Permits(perms[0], q) then Some(perms[0]) else FirstPermitting(perms[1..], q)
  }

  datatype Grant = Grant(role: string, permission: Permission)

  /** The first role, in the principal's order, with a permitting permission. */
  function Decide(roles: Roles, names: seq<string>, q: Request): Option<Grant> {
    if names == [] then None
    else if names[0] in roles && FirstPermitting(roles[names[0]].permissions, q).Some?
    then Some(Grant(names[0], FirstPermitting(roles[names[0]].permissions, q).value))
    else Decide(roles, names[1..], q)
  }

  lemma {:induction false} FirstPermittingIff(perms: seq<Permission>, q: Request)
    ensures FirstPermitting(perms, q).Some? <==> exists p :: p in perms && Permits(p, q)
    decreases |perms|
  {
    hide Permits;
    if perms != [] {
      FirstPermittingIff(perms[1..], q);
      assert perms == [perms[0]] + perms[1..];
    }
  }

  lemma {:induction false} DecideIff(roles: Roles, names: seq<string>, q: Request)
    ensures Decide(roles, names, q).Some? <==>
            exists name, p :: name in names && name in roles && p in roles[name].permissions && Permits(p, q)
    decreases |names|
  {
    hide Permits;
    if names != [] {
      DecideIff(roles, names[1..], q);
      assert names == [names[0]] + names[1..];
      if names[0] in roles {
        FirstPermittingIff(roles[names[0]].permissions, q);
      }
    }
  }

  // ---------------------------------------------------------------- the engine

  /** A Go attribute map: shared with the caller, who sees what is written into it. */
  class Attributes {
    var values: Attrs

    constructor (values: Attrs)
      ensures this.values == values
    {
      this.values := values;
    }
  }

  datatype Decision = Granted(grant: Grant) | Denied
  datatype Answer = NotInitialized | Answered(decision: Decision)

  function Injected(attrs: Attrs, id: string): Attrs {
    if PRINCIPAL_ID in attrs then attrs else attrs[PRINCIPAL_ID := id]
  }

  /** The answer of an engine that holds this policy. */
  function AnswerOf(policy: Option<Policy>, p: Option<Principal>, resource: string, action: string, attrs: Attrs): Answer {
    if policy.None? then NotInitialized
    else if p.None? || PrincipalRoles(p.value) == [] then Answered(Denied)
    else
      match Decide(policy.value.roles, PrincipalRoles(p.value), Request(resource, action, Injected(attrs, p.value.id)))
      case None => Answered(Denied)
      case Some(grant) => Answered(Granted(grant))
  }

  class PolicyEngine {
    var current: Option<Policy>

    constructor (initial: Option<Policy>)
      ensures current == initial
    {
      current := initial;
    }

    method Replace(p: Option<Policy>)
      modifies this
      ensures current == if p.None? then old(current) else p
    {
      if p.Some? {
        current := p;
      }
    }

    method Allowed(p: Option<Principal>, resource: string, action: string, attrs: Attributes?) returns (answer: Answer)
      modifies if attrs == null then {} else {attrs}
      ensures answer == old(AnswerOf(current, p, resource, action, if attrs == null then map[] else attrs.values))
      ensures current.None? ==> answer == NotInitialized
      ensures current.Some? && p.None? ==> answer == Answered(Denied)
      ensures attrs != null ==>
                attrs.values == if current.None? || p.None? || PrincipalRoles(p.value) == [] then old(attrs.values)
                                else Injected(old(attrs.values), p.value.id)
    {
      if current.None? {
        return NotInitialized;
      }
      if p.None? {
        return Answered(Denied);
      }
      var policy, names := current.value, PrincipalRoles(p.value);
      if |names| == 0 {
        return Answered(Denied);
      }
      var a := attrs;
      if a == null {
        a := new Attributes(map[]);
      }
      if PRINCIPAL_ID !in a.values {
        a.values := a.values[PRINCIPAL_ID := p.value.id];
      }
      var values := a.values;
      var grant := Search(policy.roles, names, Request(resource, action, values));
      return if grant.Some? then Answered(Granted(grant.value)) else Answered(Denied);
    }
  }

  /** The nested loop of Allowed over roles and permissions. */
  method Search(roles: Roles, names: seq<string>, q: Request) returns (grant: Option<Grant>)
    ensures grant == Decide(roles, names, q)
  {
    assert names[0..] == names;
    for i := 0 to |names|
      invariant Decide(roles, names[i..], q) == Decide(roles, names, q)
    {
      assert names[i..][1..] == names[i + 1..];
      if names[i] !in roles {
        continue;
      }
      var perms := roles[names[i]].permissions;
      assert perms[0..] == perms;
      for j := 0 to |perms|
        invariant FirstPermitting(perms[j..], q) == FirstPermitting(perms, q)
      {
        assert perms[j..][1..] == perms[j + 1..];
        var perm := perms[j];
        if !MatchesResource(perm.resource, q.resource) {
          continue;
        }
        if !MatchesAction(perm.action, q.action) {
          continue;
        }
        var ok := EvaluateConditions(perm.conditions, q.attrs);
        if !ok {
          continue;
        }
        return Some(Grant(names[i], perm));
      }
    }
    return None;
  }

  // ---------------------------------------------------------------- flattening preserves meaning

  /** No two permissions that the role and its ancestors declare share a key. */
  ghost predicate Clashless(roles: Roles, r: string) {
    forall p, q :: Holds(roles, r, p) && Holds(roles, r, q) && PermissionKey(p) == PermissionKey(q) ==> p == q
  }

  /**
    The exact condition, role by role: the flat list loses nothing that the role and its ancestors
    declare exactly when no two of those permissions share a key.
   */
  lemma {:induction false} FlattenedExact(roles: Roles, r: string)
    requires r in roles && Inherited(roles, r).Expanded?
    ensures (forall p :: Holds(roles, r, p) ==> p in Flattened(roles, r)) <==> Clashless(roles, r)
  {
    var list := roles[r].permissions + Inherited(roles, r).permissions;
    forall p ensures p in list <==> Holds(roles, r, p) {
      UnfoldedIsHeld(roles, r, p);
    }
    DedupExact(list);
    hide Holds, PermissionKey, Dedup, Expand;
  }

  /** The flat list never holds more, and without clashes exactly, what the role and its ancestors declare. */
  lemma {:induction false} FlattenedIsHeld(roles: Roles, r: string, p: Permission)
    requires r in roles && Inherited(roles, r).Expanded?
    ensures p in Flattened(roles, r) ==> Holds(roles, r, p)
    ensures Clashless(roles, r) && Holds(roles, r, p) ==> p in Flattened(roles, r)
  {
    FlattenedExact(roles, r);
    DedupSubset(roles[r].permissions + Inherited(roles, r).permissions, {});
    UnfoldedIsHeld(roles, r, p);
    hide Holds, Clashless, Expand;
  }

  /** Every declared permission has a key free of misplaced separators. */
  ghost predicate KeySafeRoles(roles: Roles) {
    forall r, p :: r in roles && p in roles[r].permissions ==> KeySafe(p)
  }

  /** Separator-free names never clash. */
  lemma {:induction false} KeySafeClashless(roles: Roles, r: string)
    requires KeySafeRoles(roles)
    ensures Clashless(roles, r)
  {
    hide PermissionKey, KeySafe;
    forall p, q | Holds(roles, r, p) && Holds(roles, r, q) && PermissionKey(p) == PermissionKey(q) ensures p == q {
      KeyInjective(p, q);
    }
  }

  /** Some role of the principal, or an ancestor of it, declares a permission for the request. */
  ghost predicate Entitled(roles: Roles, names: seq<string>, q: Request) {
    exists name, p :: name in names && Holds(roles, name, p) && Permits(p, q)
  }

  lemma {:induction false} GrantedIsEntitled(roles: Roles, names: seq<string>, q: Request)
    requires AllExpand(roles) && Decide(FlattenedRoles(roles), names, q).Some?
    ensures Entitled(roles, names, q)
  {
    var flat := FlattenedRoles(roles);
    DecideIff(flat, names, q);
    hide Decide, Permits, Expand, Dedup, Holds;
    var name, p :| name in names && name in flat && p in flat[name].permissions && Permits(p, q);
    FlattenedIsHeld(roles, name, p);
  }

  lemma {:induction false} EntitledIsGranted(roles: Roles, names: seq<string>, q: Request)
    requires AllExpand(roles) && Entitled(roles, names, q) && forall name :: name in names ==> Clashless(roles, name)
    ensures Decide(FlattenedRoles(roles), names, q).Some?
  {
    var flat := FlattenedRoles(roles);
    DecideIff(flat, names, q);
    hide Decide, Permits, Expand, Dedup, Holds, Clashless;
    var name, p :| name in names && Holds(roles, name, p) && Permits(p, q);
    HolderIsDefined(roles, name, p);
    FlattenedIsHeld(roles, name, p);
    assert p in flat[name].permissions;
  }

  /**
    The flat matcher on the loaded policy never grants more than the inheritance graph of the file
    entitles the principal to, and grants exactly that when no role of the principal has clashing
    keys in its ancestry.
   */
  lemma {:induction false} FlatteningPreservesMeaning(raw: YamlPolicy, names: seq<string>, q: Request)
    requires AllExpand(Declared(raw))
    ensures Decide(Loaded(raw).roles, names, q).Some? ==> Entitled(Declared(raw), names, q)
    ensures (forall name :: name in names ==> Clashless(Declared(raw), name)) ==>
              (Decide(Loaded(raw).roles, names, q).Some? <==> Entitled(Declared(raw), names, q))
  {
    hide Decide, Entitled, Clashless, AllExpand, Declared, FlattenedRoles;
    if Decide(Loaded(raw).roles, names, q).Some? {
      GrantedIsEntitled(Declared(raw), names, q);
    }
    if Entitled(Declared(raw), names, q) && forall name :: name in names ==> Clashless(Declared(raw), name) {
      EntitledIsGranted(Declared(raw), names, q);
    }
  }

  lemma HolderIsDefined(roles: Roles, r: string, p: Permission)
    requires Holds(roles, r, p)
    ensures r in roles
  {
    var path :| Declares(roles, path, p) && path[0] == r;
    if |path| >= 2 {
      assert Edge(roles, path[0], path[1]);
    }
  }

  // ---------------------------------------------------------------- clashing keys

  /** A file with one role of interest and one administrator. */
  function Sample(perms: seq<YamlPermission>): YamlPolicy {
    YamlPolicy(1, map["r" := YamlRole("", [], perms),
                      "root" := YamlRole("", [], [YamlPermission(WILDCARD, ACTION_ADMIN, map[])])])
  }

  lemma NoConditions()
    ensures Conditions(map[]) == []
  {
    var m: map<string, string> := map[];
    assert |multiset(m.Keys)| == 0;
    assert Strings.Listing(m.Keys) == [];
    assert Strings.Sort([]) == [];
  }

  lemma {:induction false} WithoutParents(roles: Roles, r: string)
    requires r in roles && roles[r].inherits == []
    ensures Inherited(roles, r) == Expanded([]) && Flattened(roles, r) == Dedup(roles[r].permissions)
  {
    assert roles[r].permissions + [] == roles[r].permissions;
  }

  /** Without inheritance every role keeps its own deduplicated list. */
  lemma {:induction false} ParentFreeLoads(raw: YamlPolicy)
    requires forall name :: name in raw.roles ==> raw.roles[name].inherits == []
    ensures AllExpand(Declared(raw)) && Declared(raw).Keys == Loaded(raw).roles.Keys == raw.roles.Keys
    ensures forall name :: name in raw.roles ==>
              && Declared(raw)[name].permissions == HydratedAll(raw.roles[name].permissions)
              && Loaded(raw).roles[name].permissions == Dedup(HydratedAll(raw.roles[name].permissions))
  {
    var roles := Declared(raw);
    hide Expand, Dedup, HydratedAll;
    forall name | name in roles ensures Inherited(roles, name).Expanded? && Flattened(roles, name) == Dedup(roles[name].permissions) {
      WithoutParents(roles, name);
    }
  }

  lemma {:induction false} DedupOne(p: Permission)
    ensures Dedup([p]) == [p]
  {
    hide PermissionKey;
    var seen := {} + {PermissionKey(p)};
    assert [p][1..] == [] && DedupFrom([], seen) == [];
    assert DedupFrom([p], {}) == [p] + DedupFrom([p][1..], seen);
  }

  lemma {:induction false} HydratedAdmin()
    ensures HydratedAll([YamlPermission(WILDCARD, ACTION_ADMIN, map[])]) == [Permission(WILDCARD, ACTION_ADMIN, [])]
  {
    NoConditions();
    hide Conditions;
  }

  lemma {:induction false} NoMisuse(perms: seq<YamlPermission>)
    requires forall yp :: yp in perms ==> yp.resource != WILDCARD
    ensures forall p :: p in Dedup(HydratedAll(perms)) ==> p.resource != WILDCARD
  {
    hide Conditions, DedupFrom;
    DedupSubset(HydratedAll(perms), {});
    forall p | p in HydratedAll(perms) ensures p.resource != WILDCARD {
      var i :| 0 <= i < |perms| && HydratedAll(perms)[i] == p;
      assert perms[i] in perms;
    }
  }

  lemma {:induction false} AdminSuffices(roles: Roles, r: string, root: string)
    requires roles.Keys == {r, root} && roles[root].permissions == [Permission(WILDCARD, ACTION_ADMIN, [])]
    requires forall p :: p in roles[r].permissions ==> p.resource != WILDCARD
    ensures Grants(roles, WildcardAdmin) && (r != root ==> !Grants(roles, WildcardMisuse))
  {
    var admin := Permission(WILDCARD, ACTION_ADMIN, []);
    assert admin in roles[root].permissions && WildcardAdmin(admin);
    assert RoleGrants(roles[root], WildcardAdmin);
    forall p | p in roles[r].permissions || p in roles[root].permissions ensures !WildcardMisuse(p) {}
  }

  /** Such a file is accepted unless it misuses the wildcard. */
  lemma {:induction false} SampleLoads(perms: seq<YamlPermission>)
    requires Complete(perms) && forall yp :: yp in perms ==> yp.resource != WILDCARD
    ensures Acceptable(Sample(perms)) && AllExpand(Declared(Sample(perms)))
    ensures Declared(Sample(perms)).Keys == Loaded(Sample(perms)).roles.Keys == {"r", "root"}
    ensures Declared(Sample(perms))["r"].permissions == HydratedAll(perms)
    ensures Loaded(Sample(perms)).roles["r"].permissions == Dedup(HydratedAll(perms))
    ensures Loaded(Sample(perms)).roles["root"].permissions == [Permission(WILDCARD, ACTION_ADMIN, [])]
  {
    hide Dedup, HydratedAll, Declared, Loaded, AllExpand, Grants;
    var raw := Sample(perms);
    ParentFreeLoads(raw);
    HydratedAdmin();
    DedupOne(Permission(WILDCARD, ACTION_ADMIN, []));
    NoMisuse(perms);
    assert raw.roles.Keys == {"r", "root"};
    AdminSuffices(Loaded(raw).roles, "r", "root");
  }

  /** The two grants that share a key. */
  function ClashOf(first: bool): YamlPermission {
    if first then YamlPermission("a", "b:c", map[]) else YamlPermission("a:b", "c", map[])
  }

  ghost function ClashGrant(first: bool): (p: Permission)
    ensures p == Hydrated(ClashOf(first))
  {
    NoConditions();
    if first then Permission("a", "b:c", []) else Permission("a:b", "c", [])
  }

  lemma ClashComplete()
    ensures forall yp :: yp == ClashOf(true) || yp == ClashOf(false) ==> yp.resource != WILDCARD
    ensures forall yps :: (forall yp :: yp in yps ==> yp == ClashOf(true) || yp == ClashOf(false)) ==> Complete(yps)
  {}

  /** Only the second of the two permits the second's request. */
  lemma ClashPermits(q: Request)
    requires q == Request("a:b", "c", map[])
    ensures Permits(ClashGrant(false), q) && !Permits(ClashGrant(true), q)
  {}

  lemma {:induction false} ClashHydrated()
    ensures HydratedAll([ClashOf(true), ClashOf(false)]) == [ClashGrant(true), ClashGrant(false)]
  {
    hide Hydrated, ClashOf, ClashGrant;
  }

  /** An accepted file in which deduplication drops a grant that nothing else gives. */
  lemma {:induction false} ClashLosesGrant(raw: YamlPolicy, q: Request)
    requires raw == Sample([ClashOf(true), ClashOf(false)]) && q == Request("a:b", "c", map[])
    ensures Acceptable(raw)
    ensures Entitled(Declared(raw), ["r"], q) && Decide(Loaded(raw).roles, ["r"], q).None?
  {
    hide *;
    ClashComplete();
    SampleLoads([ClashOf(true), ClashOf(false)]);
    ClashHydrated();
    ClashDeduped();
    ClashPermits(q);
    var roles, flat := Declared(raw), Loaded(raw).roles;
    assert ClashGrant(false) in roles["r"].permissions;
    OwnIsHeld(roles, "r", ClashGrant(false));
    EntitledBy(roles, "r", ClashGrant(false), q);
    DecideIff(flat, ["r"], q);
  }

  lemma {:induction false} ClashDeduped()
    ensures Dedup([ClashGrant(true), ClashGrant(false)]) == [ClashGrant(true)]
  {
    var first, second := ClashGrant(true), ClashGrant(false);
    KeysClash();
    hide PermissionKey, ClashGrant;
    assert [first, second][1..] == [second] && [second][1..] == [];
    assert DedupFrom([second], {} + {PermissionKey(first)}) == [];
  }

  lemma OwnIsHeld(roles: Roles, r: string, p: Permission)
    requires r in roles && p in roles[r].permissions
    ensures Holds(roles, r, p)
  {
    assert Declares(roles, [r], p);
  }

  lemma EntitledBy(roles: Roles, r: string, p: Permission, q: Request)
    requires Holds(roles, r, p) && Permits(p, q)
    ensures Entitled(roles, [r], q)
  {
    assert r in [r];
  }

  /** Lockout protection: some role of every accepted policy is allowed everything. */
  lemma {:induction false} AcceptedHasAdmin(raw: YamlPolicy) returns (admin: string)
    requires Acceptable(raw)
    ensures admin in Loaded(raw).roles
    ensures forall names, q :: admin in names ==> Decide(Loaded(raw).roles, names, q).Some?
  {
    var roles := Loaded(raw).roles;
    hide Declared, FlattenedRoles, Flattened, Expand, Decide;
    admin :| admin in roles && RoleGrants(roles[admin], WildcardAdmin);
    var p :| p in roles[admin].permissions && WildcardAdmin(p);
    forall names, q | admin in names ensures Decide(roles, names, q).Some? {
      assert Permits(p, q);
      DecideIff(roles, names, q);
    }
  }
}

/**
  Loading a policy (internal/authz/loader.go).

  A Go map is visited in an unspecified order, modelled by a nondeterministic choice of the next
  role.  The loaded policy is nevertheless a function of the file: Loaded.
 */
module Loader {
  import opened Policies
  import opened Inheritance
  import Strings

  datatype YamlPermission = YamlPermission(resource: string, action: string, conditions: map<string, string>)

  datatype YamlRole = YamlRole(description: string, inherits: seq<string>, permissions: seq<YamlPermission>)

  datatype YamlPolicy = YamlPolicy(version: int, roles: map<string, YamlRole>)

  /** What the YAML decoder returns. */
  datatype Decoded = Undecodable | Decoded(raw: YamlPolicy)

  datatype Result<+T> = Ok(value: T) | Err(error: LoadError)

  // ---------------------------------------------------------------- the loaded policy

  function Pairs(m: map<string, string>, keys: seq<string>): (r: seq<Condition>)
    requires forall k :: k in keys ==> k in m
    ensures |r| == |keys|
  {
    seq(|keys|, i requires 0 <= i < |keys| => Condition(keys[i], m[keys[i]]))
  }

  lemma SortedListing(m: map<string, string>)
    ensures forall k :: k in Strings.Sort(Strings.Listing(m.Keys)) ==> k in m
  {
    var keys := Strings.Listing(m.Keys);
    Strings.SortSorts(keys);
    forall k | k in Strings.Sort(keys) ensures k in m {
      assert k in multiset(Strings.Sort(keys));
    }
  }

  ghost function Conditions(m: map<string, string>): seq<Condition> {
    SortedListing(m);
    Pairs(m, Strings.Sort(Strings.Listing(m.Keys)))
  }

  /** The conditions are the entries of the map, each once, in increasing order of key. */
  ghost predicate Lists(conds: seq<Condition>, m: map<string, string>) {
    && |conds| == |m|
    && (forall k, v :: Condition(k, v) in conds <==> k in m && m[k] == v)
    && (forall i, j :: 0 <= i < j < |conds| ==> Strings.Less(conds[i].key, conds[j].key))
  }

  lemma RepeatCounts(s: seq<string>, i: nat, j: nat)
    requires i < j < |s| && s[i] == s[j]
    ensures multiset(s)[s[i]] >= 2
  {
    assert s == s[..i] + [s[i]] + s[i + 1..j] + [s[j]] + s[j + 1..];
  }

  lemma {:induction false} SortedKeysIncrease(keys: seq<string>, all: set<string>)
    requires Strings.Sorted(keys) && multiset(keys) == multiset(all)
    ensures |keys| == |all| && (forall k :: k in keys <==> k in all)
    ensures forall i, j :: 0 <= i < j < |keys| ==> Strings.Less(keys[i], keys[j])
  {
    hide Strings.Less;
    assert |multiset(keys)| == |multiset(all)|;
    forall k ensures k in keys <==> k in all {
      assert k in multiset(keys) <==> k in multiset(all);
    }
    forall i, j | 0 <= i < j < |keys| ensures Strings.Less(keys[i], keys[j]) {
      if keys[i] == keys[j] {
        RepeatCounts(keys, i, j);
      }
      Strings.LessTotal(keys[i], keys[j]);
    }
  }

  lemma {:induction false} ConditionsList(m: map<string, string>)
    ensures Lists(Conditions(m), m)
  {
    var keys := Strings.Sort(Strings.Listing(m.Keys));
    SortedListing(m);
    Strings.SortSorts(Strings.Listing(m.Keys));
    SortedKeysIncrease(keys, m.Keys);
    hide Strings.Less, Strings.Sorted, Strings.Sort;
    var conds := Conditions(m);
    assert |m.Keys| == |m|;
    forall k, v ensures Condition(k, v) in conds <==> k in m && m[k] == v {
      if k in m && m[k] == v {
        var i :| 0 <= i < |keys| && keys[i] == k;
        assert conds[i] == Condition(k, v);
      }
    }
  }

  /** The permission says what the entry of the file says. */
  ghost predicate Carries(p: Permission, yp: YamlPermission) {
    p.resource == yp.resource && p.action == yp.action && Lists(p.conditions, yp.conditions)
  }

  ghost function Hydrated(yp: YamlPermission): Permission {
    Permission(yp.resource, yp.action, Conditions(yp.conditions))
  }

  ghost function HydratedAll(yps: seq<YamlPermission>): seq<Permission> {
    seq(|yps|, i requires 0 <= i < |yps| => Hydrated(yps[i]))
  }

  predicate Complete(yps: seq<YamlPermission>) {
    forall yp :: yp in yps ==> yp.resource != "" && yp.action != ""
  }

  predicate WellNamed(raw: YamlPolicy) {
    "" !in raw.roles && forall name :: name in raw.roles ==> Complete(raw.roles[name].permissions)
  }

  ghost function HydratedRole(raw: YamlPolicy, name: string): Role
    requires name in raw.roles
  {
    var yr := raw.roles[name];
    Role(name, yr.description, yr.inherits, HydratedAll(yr.permissions))
  }

  /** The roles as the file declares them. */
  ghost function Declared(raw: YamlPolicy): Roles {
    map name | name in raw.roles :: HydratedRole(raw, name)
  }

  /** The roles with their inherited permissions, a function of the declared roles alone. */
  ghost function FlattenedRoles(roles: Roles): Roles
    requires AllExpand(roles)
  {
    map r | r in roles :: roles[r].(permissions := Flattened(roles, r))
  }

  ghost function Loaded(raw: YamlPolicy): Policy
    requires AllExpand(Declared(raw))
  {
    Policy(raw.version, FlattenedRoles(Declared(raw)))
  }

  predicate WildcardAdmin(p: Permission) {
    p.resource == WILDCARD && p.action == ACTION_ADMIN && |p.conditions| == 0
  }

  predicate WildcardMisuse(p: Permission) {
    p.resource == WILDCARD && p.action != ACTION_ADMIN
  }

  ghost predicate Grants(roles: Roles, test: Permission -> bool) {
    exists r :: r in roles && RoleGrants(roles[r], test)
  }

  ghost predicate RoleGrants(role: Role, test: Permission -> bool) {
    exists p :: p in role.permissions && test(p)
  }

  /** When a file is accepted. */
  ghost predicate Acceptable(raw: YamlPolicy) {
    && WellNamed(raw)
    && AllExpand(Declared(raw))
    && Grants(Loaded(raw).roles, WildcardAdmin)
    && !Grants(Loaded(raw).roles, WildcardMisuse)
  }

  /** What each error says about the file. */
  ghost predicate Justifies(file: Decoded, e: LoadError) {
    match e
    case Malformed => file.Undecodable?
    case EmptyRoleName => file.Decoded? && "" in file.raw.roles
    case EmptyPermission => file.Decoded? && exists r :: r in file.raw.roles && !Complete(file.raw.roles[r].permissions)
    case InheritsCycle => file.Decoded? && WellNamed(file.raw) && HasCycle(Declared(file.raw))
    case InheritsUnknown => file.Decoded? && WellNamed(file.raw) && HasUndefined(Declared(file.raw))
    case WildcardOnNonAdmin =>
      file.Decoded? && WellNamed(file.raw) && AllExpand(Declared(file.raw)) && Grants(Loaded(file.raw).roles, WildcardMisuse)
    case NoAdmin =>
      && file.Decoded? && WellNamed(file.raw) && AllExpand(Declared(file.raw))
      && !Grants(Loaded(file.raw).roles, WildcardMisuse) && !Grants(Loaded(file.raw).roles, WildcardAdmin)
  }

  // ---------------------------------------------------------------- pass 1

  method SortedConditions(m: map<string, string>) returns (conds: seq<Condition>)
    ensures conds == Conditions(m) && Lists(conds, m)
  {
    ConditionsList(m);
    var keys: seq<string>, todo := [], m.Keys;
    while todo != {}
      invariant todo <= m.Keys && multiset(keys) + multiset(todo) == multiset(m.Keys)
      decreases todo
    {
      var k :| k in todo;
      assert multiset(todo) == multiset(todo - {k}) + multiset{k};
      keys, todo := keys + [k], todo - {k};
    }
    Strings.SortCanonical(keys, Strings.Listing(m.Keys));
    SortedListing(m);
    conds := Pairs(m, Strings.Sort(keys));
  }

  method HydratePermissions(yps: seq<YamlPermission>) returns (r: Result<seq<Permission>>)
    ensures r == if Complete(yps) then Ok(HydratedAll(yps)) else Err(EmptyPermission)
    ensures r.Ok? ==> |r.value| == |yps| && forall i :: 0 <= i < |yps| ==> Carries(r.value[i], yps[i])
  {
    hide Conditions, Lists;
    var perms: seq<Permission> := [];
    for i := 0 to |yps|
      invariant forall j :: 0 <= j < i ==> yps[j].resource != "" && yps[j].action != ""
      invariant perms == HydratedAll(yps)[..i]
      invariant forall j :: 0 <= j < i ==> Carries(perms[j], yps[j])
    {
      if yps[i].resource == "" || yps[i].action == "" {
        assert yps[i] in yps;
        return Err(EmptyPermission);
      }
      var conds := SortedConditions(yps[i].conditions);
      perms := perms + [Permission(yps[i].resource, yps[i].action, conds)];
    }
    assert HydratedAll(yps)[..|yps|] == HydratedAll(yps);
    return Ok(perms);
  }

  method HydrateRoles(raw: YamlPolicy) returns (r: Result<Roles>)
    ensures r.Ok? ==> WellNamed(raw) && r.value == Declared(raw)
    ensures r.Err? ==> !WellNamed(raw) && Justifies(Decoded(raw), r.error) && r.error in {EmptyRoleName, EmptyPermission}
  {
    hide HydratedAll, Complete;
    var roles: Roles, todo := map[], raw.roles.Keys;
    while todo != {}
      invariant todo <= raw.roles.Keys && roles.Keys == raw.roles.Keys - todo && "" !in roles
      invariant forall name :: name in roles ==>
                  Complete(raw.roles[name].permissions) && roles[name] == HydratedRole(raw, name)
      decreases todo
    {
      var name :| name in todo;
      if name == "" {
        return Err(EmptyRoleName);
      }
      var yr := raw.roles[name];
      var perms := HydratePermissions(yr.permissions);
      if perms.Err? {
        return Err(perms.error);
      }
      roles := roles[name := Role(name, yr.description, yr.inherits, perms.value)];
      todo := todo - {name};
    }
    return Ok(roles);
  }

  // ---------------------------------------------------------------- pass 2

  /** The mutable set of roles on the visit stack. */
  class VisitStack {
    var names: set<string>

    constructor (name: string)
      ensures names == {name}
    {
      names := {name};
    }
  }

  ghost function Prefixed(out: seq<Permission>, e: Expansion): Expansion {
    if e.Refused? then e else Expanded(out + e.permissions)
  }

  lemma {:induction false} ExpandNext(roles: Roles, parents: seq<string>, i: nat, seen: set<string>, out: seq<Permission>)
    requires i < |parents| && parents[i] !in seen && parents[i] in roles
    ensures var grand := Expand(roles, roles[parents[i]].inherits, seen + {parents[i]});
            Prefixed(out, Expand(roles, parents[i..], seen))
            == if grand.Refused? then grand
               else Prefixed(out + roles[parents[i]].permissions + grand.permissions, Expand(roles, parents[i + 1..], seen))
  {
    assert parents[i..][1..] == parents[i + 1..];
    var own, grand := roles[parents[i]].permissions, Expand(roles, roles[parents[i]].inherits, seen + {parents[i]});
    var rest := Expand(roles, parents[i + 1..], seen);
    if grand.Expanded? && rest.Expanded? {
      assert out + (own + grand.permissions + rest.permissions) == (out + own + grand.permissions) + rest.permissions;
    }
  }

  method ExpandInherits(roles: Roles, role: Role, stack: VisitStack) returns (e: Expansion)
    modifies stack
    ensures e == Expand(roles, role.inherits, old(stack.names))
    ensures e.Expanded? ==> stack.names == old(stack.names)
    decreases roles.Keys - stack.names
  {
    var out: seq<Permission> := [];
    ghost var seen := stack.names;
    assert role.inherits[0..] == role.inherits;
    for i := 0 to |role.inherits|
      invariant stack.names == seen
      invariant Prefixed(out, Expand(roles, role.inherits[i..], seen)) == Expand(roles, role.inherits, seen)
    {
      var parent := role.inherits[i];
      if parent in stack.names {
        return Refused(InheritsCycle);
      }
      if parent !in roles {
        return Refused(InheritsUnknown);
      }
      ExpandNext(roles, role.inherits, i, seen, out);
      stack.names := stack.names + {parent};
      out := out + roles[parent].permissions;
      assert parent in roles.Keys - seen && parent !in roles.Keys - stack.names;
      var grand := ExpandInherits(roles, roles[parent], stack);
      if grand.Refused? {
        return grand;
      }
      out := out + grand.permissions;
      stack.names := stack.names - {parent};
    }
    return Expanded(out);
  }

  /** Rewrites every role in place, in any order; parents may or may not be rewritten already. */
  method FlattenRoles(declared: Roles) returns (r: Result<Roles>)
    requires forall name :: name in declared ==> declared[name].name == name
    ensures r.Ok? ==> AllExpand(declared) && r.value == FlattenedRoles(declared)
    ensures r.Err? ==> !AllExpand(declared)
    ensures r.Err? ==> r.error in {InheritsCycle, InheritsUnknown}
    ensures r == Err(InheritsCycle) ==> HasCycle(declared)
    ensures r == Err(InheritsUnknown) ==> HasUndefined(declared)
  {
    hide Expand, Dedup, HasCycle, HasUndefined;
    var roles, todo := declared, declared.Keys;
    while todo != {}
      invariant todo <= declared.Keys && Halfway(declared, roles, declared.Keys - todo)
      decreases todo
    {
      var name :| name in todo;
      RewriteRole(declared, roles, declared.Keys - todo, name);
      var role := roles[name];
      var stack := new VisitStack(role.name);
      var expanded := ExpandInherits(roles, role, stack);
      if expanded.Refused? {
        RoleRefused(declared, name);
        return Err(expanded.error);
      }
      var perms := DedupPermissions(role.permissions + expanded.permissions);
      roles := roles[name := role.(permissions := perms)];
      todo := todo - {name};
    }
    return Ok(roles);
  }

  // ---------------------------------------------------------------- pass 3

  method Validate(roles: Roles) returns (verdict: Result<()>)
    ensures verdict.Ok? <==> Grants(roles, WildcardAdmin) && !Grants(roles, WildcardMisuse)
    ensures verdict == Err(WildcardOnNonAdmin) ==> Grants(roles, WildcardMisuse)
    ensures verdict.Err? && verdict.error != WildcardOnNonAdmin ==>
              verdict.error == NoAdmin && !Grants(roles, WildcardMisuse) && !Grants(roles, WildcardAdmin)
  {
    var hasAdmin, todo := false, roles.Keys;
    while todo != {}
      invariant todo <= roles.Keys
      invariant forall r :: r in roles.Keys - todo ==> !RoleGrants(roles[r], WildcardMisuse)
      invariant hasAdmin <==> exists r :: r in roles.Keys - todo && RoleGrants(roles[r], WildcardAdmin)
      decreases todo
    {
      var name :| name in todo;
      var role := roles[name];
      var roleHasAdmin := false;
      for i := 0 to |role.permissions|
        invariant forall j :: 0 <= j < i ==> !WildcardMisuse(role.permissions[j])
        invariant roleHasAdmin <==> exists j :: 0 <= j < i && WildcardAdmin(role.permissions[j])
      {
        var p := role.permissions[i];
        if p.resource == WILDCARD && p.action == ACTION_ADMIN && |p.conditions| == 0 {
          roleHasAdmin := true;
        }
        if p.resource == WILDCARD && p.action != ACTION_ADMIN {
          assert p in role.permissions && WildcardMisuse(p);
          return Err(WildcardOnNonAdmin);
        }
      }
      assert roleHasAdmin <==> RoleGrants(role, WildcardAdmin);
      hasAdmin := hasAdmin || roleHasAdmin;
      todo := todo - {name};
    }
    if !hasAdmin {
      return Err(NoAdmin);
    }
    return Ok(());
  }

  // ---------------------------------------------------------------- LoadBytes

  method LoadBytes(file: Decoded) returns (r: Result<Policy>)
    ensures r.Ok? <==> file.Decoded? && Acceptable(file.raw)
    ensures r.Ok? ==> r.value == Loaded(file.raw) && SameHeads(r.value, file.raw)
    ensures r.Ok? ==> "" !in file.raw.roles && forall name, yp :: name in file.raw.roles && yp in file.raw.roles[name].permissions
                                                                 ==> yp.resource != "" && yp.action != ""
    ensures r.Ok? ==> forall name, p :: name in r.value.roles && p in r.value.roles[name].permissions
                                        ==> (p.resource == "*" ==> p.action == "admin")
    ensures r.Err? ==> Justifies(file, r.error)
  {
    hide HydratedRole, FlattenedRoles, AllExpand, HasCycle, HasUndefined, Grants;
    if file.Undecodable? {
      return Err(Malformed);
    }
    var raw := file.raw;
    var declared := HydrateRoles(raw);
    if declared.Err? {
      return Err(declared.error);
    }
    DeclaredNames(raw);
    var flat := FlattenRoles(declared.value);
    if flat.Err? {
      return Err(flat.error);
    }
    var verdict := Validate(flat.value);
    if verdict.Err? {
      return Err(verdict.error);
    }
    LoadedHeads(raw);
    NamesComplete(raw);
    NoOtherWildcard(flat.value);
    return Ok(Policy(raw.version, flat.value));
  }

  lemma NamesComplete(raw: YamlPolicy)
    requires WellNamed(raw)
    ensures "" !in raw.roles
    ensures forall name, yp :: name in raw.roles && yp in raw.roles[name].permissions ==> yp.resource != "" && yp.action != ""
  {}

  lemma NoOtherWildcard(roles: Roles)
    requires !Grants(roles, WildcardMisuse)
    ensures forall name, p :: name in roles && p in roles[name].permissions ==> (p.resource == "*" ==> p.action == "admin")
  {
    forall name, p | name in roles && p in roles[name].permissions && p.resource == "*" ensures p.action == "admin" {
      assert !RoleGrants(roles[name], WildcardMisuse);
      assert !WildcardMisuse(p);
    }
  }

  /** Version, role names, descriptions and parents are those of the file. */
  ghost predicate SameHeads(policy: Policy, raw: YamlPolicy) {
    && policy.version == raw.version && policy.roles.Keys == raw.roles.Keys
    && forall name :: name in raw.roles ==>
         var role, yr := policy.roles[name], raw.roles[name];
         role.name == name && role.description == yr.description && role.inherits == yr.inherits
  }

  lemma LoadedHeads(raw: YamlPolicy)
    requires AllExpand(Declared(raw))
    ensures SameHeads(Loaded(raw), raw)
  {
    hide Expand, Dedup, HydratedAll;
  }

  lemma DeclaredNames(raw: YamlPolicy)
    ensures forall name :: name in Declared(raw) ==> Declared(raw)[name].name == name
  {}
}

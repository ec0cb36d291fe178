/**
  Roles, permissions and permission keys
  (internal/authz/types.go, internal/authz/loader.go: dedupPermissions, permissionKey).
 */
module Policies {
  import opened Strings

  datatype Condition = Condition(key: string, value: string)

  datatype Permission = Permission(resource: string, action: string, conditions: seq<Condition>)

  datatype Role = Role(name: string, description: string, inherits: seq<string>, permissions: seq<Permission>)

  type Roles = map<string, Role>

  datatype Policy = Policy(version: int, roles: Roles)

  datatype LoadError =
    | Malformed
    | NoAdmin
    | InheritsCycle
    | InheritsUnknown
    | EmptyRoleName
    | EmptyPermission
    | WildcardOnNonAdmin

  const WILDCARD: string := "*"
  const ACTION_ADMIN: string := "admin"
  const NOT_SELF: string := "not-self"
  const PRINCIPAL_ID: string := "principal_id"

  // ---------------------------------------------------------------- keys

  function ConditionKeys(conditions: seq<Condition>): string {
    if conditions == [] then ""
    else ";" + (conditions[0].key + ("=" + (conditions[0].value + ConditionKeys(conditions[1..]))))
  }

  function PermissionKey(p: Permission): string {
    p.resource + (":" + (p.action + ConditionKeys(p.conditions)))
  }

  /** The separators that would make a key ambiguous do not occur where they matter. */
  ghost predicate KeySafe(p: Permission) {
    && ':' !in p.resource
    && ';' !in p.action
    && forall c :: c in p.conditions ==> '=' !in c.key && ';' !in c.value
  }

  lemma {:induction false} SemicolonFirst(cs: seq<Condition>)
    ensures if cs == [] then ConditionKeys(cs) == "" else ConditionKeys(cs) != "" && ConditionKeys(cs)[0] == ';'
  {}

  /** A field followed by condition keys ends where the first semicolon is. */
  lemma {:induction false} SplitAtConditions(a: string, cs: seq<Condition>, b: string, ds: seq<Condition>)
    requires ';' !in a && ';' !in b
    requires a + ConditionKeys(cs) == b + ConditionKeys(ds)
    ensures a == b && ConditionKeys(cs) == ConditionKeys(ds)
  {
    SemicolonFirst(cs);
    SemicolonFirst(ds);
    hide ConditionKeys;
    assert (cs == []) == (';' !in a + ConditionKeys(cs)) && (ds == []) == (';' !in b + ConditionKeys(ds));
    if cs == [] {
      assert a + ConditionKeys(cs) == a && b + ConditionKeys(ds) == b;
    } else {
      var x, y := ConditionKeys(cs)[1..], ConditionKeys(ds)[1..];
      assert ConditionKeys(cs) == [';'] + x && ConditionKeys(ds) == [';'] + y;
      SplitAtFirst(';', a, x, b, y);
    }
  }

  lemma {:induction false} ConditionKeysInjective(cs: seq<Condition>, ds: seq<Condition>)
    requires forall c :: c in cs ==> '=' !in c.key && ';' !in c.value
    requires forall c :: c in ds ==> '=' !in c.key && ';' !in c.value
    requires ConditionKeys(cs) == ConditionKeys(ds)
    ensures cs == ds
    decreases |cs|
  {
    if cs == [] || ds == [] {
      assert cs == ds == [];
    } else {
      var c, d := cs[0], ds[0];
      var x, y := c.value + ConditionKeys(cs[1..]), d.value + ConditionKeys(ds[1..]);
      assert ConditionKeys(cs)[1..] == c.key + (['='] + x);
      assert ConditionKeys(ds)[1..] == d.key + (['='] + y);
      SplitAtFirst('=', c.key, x, d.key, y);
      SplitAtConditions(c.value, cs[1..], d.value, ds[1..]);
      ConditionKeysInjective(cs[1..], ds[1..]);
      hide ConditionKeys;
      assert cs == [c] + cs[1..] && ds == [d] + ds[1..];
    }
  }

  lemma {:induction false} KeyInjective(p: Permission, q: Permission)
    requires KeySafe(p) && KeySafe(q) && PermissionKey(p) == PermissionKey(q)
    ensures p == q
  {
    SplitAtFirst(':', p.resource, p.action + ConditionKeys(p.conditions), q.resource, q.action + ConditionKeys(q.conditions));
    SplitAtConditions(p.action, p.conditions, q.action, q.conditions);
    ConditionKeysInjective(p.conditions, q.conditions);
  }

  /** Without that restriction two different grants can share a key. */
  lemma KeysClash()
    ensures PermissionKey(Permission("a:b", "c", [])) == PermissionKey(Permission("a", "b:c", []))
  {}

  // ---------------------------------------------------------------- removing duplicates

  ghost function Keys(ps: seq<Permission>): set<string> {
    set p | p in ps :: PermissionKey(p)
  }

  /** Keeps the first permission of each key that is not already seen. */
  function DedupFrom(ps: seq<Permission>, seen: set<string>): seq<Permission>
    decreases |ps|
  {
    if ps == [] then []
    else if PermissionKey(ps[0]) in seen then DedupFrom(ps[1..], seen)
    else [ps[0]] + DedupFrom(ps[1..], seen + {PermissionKey(ps[0])})
  }

  function Dedup(ps: seq<Permission>): seq<Permission> {
    DedupFrom(ps, {})
  }

  method DedupPermissions(perms: seq<Permission>) returns (out: seq<Permission>)
    ensures out == Dedup(perms)
  {
    hide PermissionKey;
    out := [];
    var seen: set<string> := {};
    assert perms[0..] == perms;
    for i := 0 to |perms|
      invariant out + DedupFrom(perms[i..], seen) == Dedup(perms)
    {
      var p := perms[i];
      var key := PermissionKey(p);
      assert perms[i..][1..] == perms[i + 1..];
      if key in seen {
        continue;
      }
      ghost var rest := DedupFrom(perms[i + 1..], seen + {key});
      assert out + ([p] + rest) == (out + [p]) + rest;
      seen := seen + {key};
      out := out + [p];
    }
  }

  lemma {:induction false} KeysCons(ps: seq<Permission>)
    requires ps != []
    ensures Keys(ps) == {PermissionKey(ps[0])} + Keys(ps[1..])
  {
    hide PermissionKey;
    assert ps == [ps[0]] + ps[1..];
  }

  lemma {:induction false} KeysConcat(a: seq<Permission>, b: seq<Permission>)
    ensures Keys(a + b) == Keys(a) + Keys(b)
  {
    hide PermissionKey;
  }

  lemma {:induction false} DedupConcat(a: seq<Permission>, b: seq<Permission>, seen: set<string>)
    ensures DedupFrom(a + b, seen) == DedupFrom(a, seen) + DedupFrom(b, seen + Keys(a))
    decreases |a|
  {
    hide PermissionKey;
    if a == [] {
      assert a + b == b && seen + Keys(a) == seen;
    } else {
      var key := PermissionKey(a[0]);
      assert (a + b)[0] == a[0] && (a + b)[1..] == a[1..] + b;
      KeysCons(a);
      hide Keys;
      if key in seen {
        DedupConcat(a[1..], b, seen);
        assert seen + Keys(a) == seen + Keys(a[1..]);
      } else {
        DedupConcat(a[1..], b, seen + {key});
        assert seen + Keys(a) == seen + {key} + Keys(a[1..]);
      }
    }
  }

  lemma {:induction false} DedupKeys(a: seq<Permission>, seen: set<string>)
    ensures Keys(DedupFrom(a, seen)) == Keys(a) - seen
    decreases |a|
  {
    hide PermissionKey;
    if a != [] {
      var key := PermissionKey(a[0]);
      KeysCons(a);
      if key in seen {
        DedupKeys(a[1..], seen);
      } else {
        DedupKeys(a[1..], seen + {key});
        var r := DedupFrom(a, seen);
        assert r[1..] == DedupFrom(a[1..], seen + {key});
        KeysCons(r);
      }
    }
  }

  lemma {:induction false} DedupTwice(a: seq<Permission>, seen: set<string>, more: set<string>)
    requires seen <= more
    ensures DedupFrom(DedupFrom(a, seen), more) == DedupFrom(a, more)
    decreases |a|
  {
    hide PermissionKey;
    if a != [] {
      var key := PermissionKey(a[0]);
      if key in seen {
        DedupTwice(a[1..], seen, more);
      } else {
        var rest := DedupFrom(a[1..], seen + {key});
        assert DedupFrom(a, seen) == [a[0]] + rest;
        assert ([a[0]] + rest)[1..] == rest;
        if key in more {
          DedupTwice(a[1..], seen + {key}, more);
        } else {
          DedupTwice(a[1..], seen + {key}, more + {key});
        }
      }
    }
  }

  lemma {:induction false} DedupNothingNew(a: seq<Permission>, seen: set<string>)
    requires Keys(a) <= seen
    ensures DedupFrom(a, seen) == []
    decreases |a|
  {
    if a != [] {
      KeysCons(a);
      hide PermissionKey, Keys;
      DedupNothingNew(a[1..], seen);
    }
  }

  /** Two lists with the same deduplicated form. */
  ghost predicate Same(a: seq<Permission>, b: seq<Permission>) {
    Dedup(a) == Dedup(b)
  }

  lemma {:induction false} SameKeys(a: seq<Permission>, b: seq<Permission>)
    requires Same(a, b)
    ensures Keys(a) == Keys(b)
  {
    DedupKeys(a, {});
    DedupKeys(b, {});
    assert Keys(a) - {} == Keys(a) && Keys(b) - {} == Keys(b);
  }

  lemma {:induction false} SameConcat(a: seq<Permission>, a': seq<Permission>, b: seq<Permission>, b': seq<Permission>)
    requires Same(a, a') && Same(b, b')
    ensures Same(a + b, a' + b')
  {
    SameKeys(a, a');
    hide Keys, PermissionKey;
    DedupConcat(a, b, {});
    DedupConcat(a', b', {});
    var keys := {} + Keys(a);
    DedupTwice(b, {}, keys);
    DedupTwice(b', {}, keys);
    hide DedupFrom;
  }

  lemma {:induction false} SameDedup(a: seq<Permission>)
    ensures Same(Dedup(a), a)
  {
    DedupTwice(a, {}, {});
  }

  lemma {:induction false} SameAbsorb(a: seq<Permission>, b: seq<Permission>)
    requires Keys(b) <= Keys(a)
    ensures Same(a + b, a)
  {
    DedupConcat(a, b, {});
    hide Keys, PermissionKey;
    DedupNothingNew(b, {} + Keys(a));
    hide DedupFrom;
    assert Dedup(a) + [] == Dedup(a);
  }

  /** A role copied twice along the way changes nothing. */
  lemma {:induction false} SameRepeat(own: seq<Permission>, grand: seq<Permission>, grand': seq<Permission>)
    requires Same(grand, grand')
    ensures Same(Dedup(own + grand) + grand', own + grand)
    ensures Same(own + grand', own + grand)
  {
    hide PermissionKey, DedupFrom;
    SameDedup(own + grand);
    SameKeys(grand, grand');
    SameKeys(Dedup(own + grand), own + grand);
    KeysConcat(own, grand);
    SameAbsorb(Dedup(own + grand), grand');
    SameConcat(own, own, grand, grand');
  }

  /** Keys are unambiguous within a list. */
  ghost predicate Unambiguous(ps: seq<Permission>) {
    forall p, q :: p in ps && q in ps && PermissionKey(p) == PermissionKey(q) ==> p == q
  }

  lemma {:induction false} DedupSubset(ps: seq<Permission>, seen: set<string>)
    ensures forall p :: p in DedupFrom(ps, seen) ==> p in ps
    decreases |ps|
  {
    hide PermissionKey;
    if ps != [] {
      DedupSubset(ps[1..], seen);
      DedupSubset(ps[1..], seen + {PermissionKey(ps[0])});
    }
  }

  /** Deduplication loses no permission when keys are unambiguous. */
  lemma {:induction false} DedupMembers(ps: seq<Permission>, p: Permission)
    requires Unambiguous(ps)
    ensures p in Dedup(ps) <==> p in ps
  {
    hide PermissionKey;
    DedupSubset(ps, {});
    DedupKeys(ps, {});
    if p in ps {
      assert PermissionKey(p) in Keys(Dedup(ps));
      var q :| q in Dedup(ps) && PermissionKey(q) == PermissionKey(p);
    }
  }

  lemma {:induction false} DedupUnambiguous(ps: seq<Permission>, seen: set<string>)
    ensures Unambiguous(DedupFrom(ps, seen))
    decreases |ps|
  {
    hide PermissionKey;
    if ps != [] {
      var key := PermissionKey(ps[0]);
      DedupUnambiguous(ps[1..], seen);
      DedupUnambiguous(ps[1..], seen + {key});
      DedupKeys(ps[1..], seen + {key});
      assert key !in Keys(DedupFrom(ps[1..], seen + {key}));
    }
  }

  /** The condition is exact: deduplication keeps every permission only if keys are unambiguous. */
  lemma {:induction false} DedupExact(ps: seq<Permission>)
    ensures (forall p :: p in ps ==> p in Dedup(ps)) <==> Unambiguous(ps)
  {
    DedupUnambiguous(ps, {});
    hide PermissionKey, DedupFrom;
    if Unambiguous(ps) {
      forall p | p in ps ensures p in Dedup(ps) {
        DedupMembers(ps, p);
      }
    }
  }
}

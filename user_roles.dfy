/** `User::hasRole`: whether a user's simple role carries a given name or slug, compared
    case-insensitively. */
module UserRoles {
  import opened Wrappers
  import opened Text
  import opened RoleMigrations

  /** `strtolower` of a nullable column: PHP reads null as the empty string. */
  function LowerOr(s: Option<string>): string
  {
    Lower(s.GetOr(""))
  }

  /** `hasRole($nameOrSlug)` for a user whose `role` relation is `role`. */
  function HasRole(role: Option<RoleRow>, nameOrSlug: string): bool
  {
    if role.None? then false
    else
      var x := Lower(nameOrSlug);
      Lower(role.value.name) == x || LowerOr(role.value.slug) == x
  }

  /** Two characters are the same letter up to ASCII case: equal, or an upper-case letter
      and its lower-case partner. */
  predicate CharCaseEq(x: char, y: char)
  {
    || x == y
    || ('A' <= x <= 'Z' && y == (x as int + 32) as char)
    || ('A' <= y <= 'Z' && x == (y as int + 32) as char)
  }

  /** Two strings agree up to ASCII case, character by character. */
  predicate CaseEq(a: string, b: string)
  {
    |a| == |b| && forall i :: 0 <= i < |a| ==> CharCaseEq(a[i], b[i])
  }

  /** Comparing lowered strings is comparing up to ASCII case. */
  lemma LowerEqIsCaseEq(a: string, b: string)
    ensures Lower(a) == Lower(b) <==> CaseEq(a, b)
  {
    if Lower(a) == Lower(b) {
      assert |a| == |b|;
      forall i | 0 <= i < |a| ensures CharCaseEq(a[i], b[i]) {
        assert Lower(a)[i] == Lower(b)[i];
      }
    }
    if CaseEq(a, b) {
      forall i | 0 <= i < |a| ensures Lower(a)[i] == Lower(b)[i] {
        assert CharCaseEq(a[i], b[i]);
      }
    }
  }

  /** A user without a role has none; otherwise the argument matches when it equals the
      role's name or its slug (null read as "") up to ASCII case. */
  lemma HasRoleSpec(role: Option<RoleRow>, nameOrSlug: string)
    ensures role.None? ==> !HasRole(role, nameOrSlug)
    ensures role.Some? ==>
      (HasRole(role, nameOrSlug) <==>
        CaseEq(role.value.name, nameOrSlug) || CaseEq(role.value.slug.GetOr(""), nameOrSlug))
  {
    if role.Some? {
      LowerEqIsCaseEq(role.value.name, nameOrSlug);
      LowerEqIsCaseEq(role.value.slug.GetOr(""), nameOrSlug);
    }
  }

  /** Lowering the argument first changes nothing. */
  lemma HasRoleIgnoresCase(role: Option<RoleRow>, nameOrSlug: string)
    ensures HasRole(role, Lower(nameOrSlug)) == HasRole(role, nameOrSlug)
  {
    LowerIdempotent(nameOrSlug);
  }

  /** A role with slug `admin` answers to `ADMIN` and to `Admin`. */
  lemma AdminAnyCase(role: RoleRow)
    requires role.slug == Some("admin")
    ensures HasRole(Some(role), "ADMIN") && HasRole(Some(role), "Admin")
  {
    assert Lower("admin") == "admin";
    assert Lower("ADMIN") == "admin";
    assert Lower("Admin") == "admin";
  }
}

/** The two migrations that move the users to simple roles:
    `cleanup_spatie_and_simple_roles` gives every role a unique slug, upserts the core
    roles and gives the known admin the admin role; `force_drop_role_column_fix` copies
    the legacy text column `users.role` into `users.role_id` and drops it. Tables are
    values the migrations take and return; `Str::slug` is a parameter. */
module RoleMigrations {
  import opened Wrappers
  import opened Seqs
  import opened Text

  /** A row of `roles`. */
  datatype RoleRow = RoleRow(id: nat, name: string, slug: Option<string>, createdAt: Option<int>, updatedAt: Option<int>)

  /** A row of `users`, with the legacy `role` text column while it exists. */
  datatype UserRow = UserRow(id: nat, email: string, role: Option<string>, roleId: Option<nat>)

  function RoleId(r: RoleRow): nat { r.id }

  /** `orderBy('id')`: the roles table read in primary-key order. */
  predicate InIdOrder(t: seq<RoleRow>)
  {
    forall i, j :: 0 <= i < j < |t| ==> t[i].id < t[j].id
  }

  // ---------------------------------------------------------------- the slug candidates

  /** `$slug . '-' . $i` */
  function Suffixed(slug: string, i: nat): string
  {
    slug + "-" + Padded(i, 0)
  }

  /** The candidates in the order the loop tries them: the slug, then slug-2, slug-3, ... */
  function Candidate(slug: string, n: nat): string
  {
    if n == 0 then slug else Suffixed(slug, n + 1)
  }

  /** The candidates tried before the `n`-th. */
  ghost function Tried(slug: string, n: nat): set<string>
  {
    if n == 0 then {} else Tried(slug, n - 1) + {Candidate(slug, n - 1)}
  }

  lemma CandidateInjective(slug: string, m: nat, n: nat)
    requires m != n
    ensures Candidate(slug, m) != Candidate(slug, n)
  {
    if m != 0 && n != 0 {
      if Candidate(slug, m) == Candidate(slug, n) {
        var p := slug + "-";
        assert Padded(m + 1, 0) == Candidate(slug, m)[|p|..];
        assert Padded(n + 1, 0) == Candidate(slug, n)[|p|..];
        PaddedInjective(m + 1, n + 1, 0);
      }
    } else if m == 0 {
      assert |Candidate(slug, n)| > |slug|;
    } else {
      assert |Candidate(slug, m)| > |slug|;
    }
  }

  lemma {:induction false} TriedSpec(slug: string, n: nat)
    ensures |Tried(slug, n)| == n
    ensures forall m: nat :: m < n ==> Candidate(slug, m) in Tried(slug, n)
    ensures forall m: nat :: m >= n ==> Candidate(slug, m) !in Tried(slug, n)
  {
    if n > 0 {
      TriedSpec(slug, n - 1);
      forall m: nat | m >= n ensures Candidate(slug, m) !in Tried(slug, n) {
        CandidateInjective(slug, m, n - 1);
      }
    }
  }

  /** `where('slug', $candidate)->where('id', '!=', $r->id)->exists()` */
  predicate HeldByOther(t: seq<RoleRow>, candidate: string, id: nat)
  {
    exists k :: 0 <= k < |t| && t[k].slug == Some(candidate) && t[k].id != id
  }

  predicate Blocked(t: seq<RoleRow>, used: seq<string>, candidate: string, id: nat)
  {
    candidate in used || HeldByOther(t, candidate, id)
  }

  /** The first `n` candidates are all blocked. */
  ghost predicate AllBlocked(t: seq<RoleRow>, used: seq<string>, id: nat, slug: string, n: nat)
  {
    n == 0 || (AllBlocked(t, used, id, slug, n - 1) && Blocked(t, used, Candidate(slug, n - 1), id))
  }

  /** The slugs present in a table. */
  ghost function SlugSet(t: seq<RoleRow>): set<string>
  {
    set k | 0 <= k < |t| && t[k].slug.Some? :: t[k].slug.value
  }

  /** A null or empty slug starts from `Str::slug($name)`, or from `role-<id>` when that is
      empty; a non-empty slug starts from itself. */
  function StartSlug(r: RoleRow, slugify: string -> string): string
  {
    if r.slug.None? || r.slug.value == "" then
      if slugify(r.name) == "" then "role-" + Padded(r.id, 0) else slugify(r.name)
    else r.slug.value
  }

  /** The `while` of the backfill: the first candidate neither assigned earlier nor held by
      another row. It ends because only finitely many strings are blocked. */
  method FreeSlug(t: seq<RoleRow>, used: seq<string>, id: nat, slug: string) returns (candidate: string, ghost n: nat)
    ensures candidate == Candidate(slug, n)
    ensures !Blocked(t, used, candidate, id)
    ensures AllBlocked(t, used, id, slug, n)
  {
    ghost var blocked := (set x | x in used) + SlugSet(t);
    candidate := slug;
    var i := 2;
    n := 0;
    TriedSpec(slug, 0);
    while Blocked(t, used, candidate, id)
      invariant i == n + 2
      invariant candidate == Candidate(slug, n)
      invariant AllBlocked(t, used, id, slug, n)
      invariant Tried(slug, n) <= blocked
      decreases |blocked| - n
    {
      assert candidate in blocked by {
        if !(candidate in used) {
          var k :| 0 <= k < |t| && t[k].slug == Some(candidate) && t[k].id != id;
        }
      }
      TriedSpec(slug, n + 1);
      SubsetCard(Tried(slug, n + 1), blocked);
      ghost var before := n;
      assert Blocked(t, used, Candidate(slug, before), id);
      candidate := slug + "-" + Padded(i, 0);
      i := i + 1;
      n := n + 1;
    }
  }

  lemma SubsetCard<T>(a: set<T>, b: set<T>)
    requires a <= b
    ensures |a| <= |b|
  {
    assert b == a + (b - a);
  }

  // ---------------------------------------------------------------- the backfill

  /** A row whose non-empty slug no other row holds. */
  predicate SlugUnique(roles: seq<RoleRow>, j: nat)
    requires j < |roles|
  {
    roles[j].slug.Some? && roles[j].slug.value != "" &&
    forall i :: 0 <= i < |roles| && i != j ==> roles[i].slug != roles[j].slug
  }

  /** What the backfill keeps true after `k` rows: those rows carry the distinct candidates
      in `used` (the `n`-th candidate of their starting slug, a unique slug kept), none of
      which a later row holds, and the later rows are untouched. */
  ghost predicate Progress(roles: seq<RoleRow>, t: seq<RoleRow>, used: seq<string>, ns: seq<nat>, k: nat, slugify: string -> string)
  {
    && k <= |roles| && |t| == |roles| && |used| == k && |ns| == k
    && (forall j :: k <= j < |roles| ==> t[j] == roles[j])
    && (forall j :: 0 <= j < k ==> t[j] == roles[j].(slug := Some(used[j])))
    && (forall j :: 0 <= j < k ==> used[j] == Candidate(StartSlug(roles[j], slugify), ns[j]))
    && (forall i, j :: 0 <= i < j < k ==> used[i] != used[j])
    && (forall i, j :: 0 <= i < k <= j < |roles| ==> roles[j].slug != Some(used[i]))
    && (forall j :: 0 <= j < k && SlugUnique(roles, j) ==> used[j] == roles[j].slug.value)
  }

  /** Step 1b: the roles in id order, each given the first free candidate of its starting
      slug; `used` is the `$used` array. Row `k` ends with the `ns[k]`-th candidate. */
  method BackfillSlugs(roles: seq<RoleRow>, slugify: string -> string) returns (t: seq<RoleRow>, ghost ns: seq<nat>)
    requires InIdOrder(roles)
    ensures |t| == |roles| && |ns| == |roles|
    ensures forall k :: 0 <= k < |t| ==> t[k].slug.Some? && t[k] == roles[k].(slug := t[k].slug)
    ensures forall i, j :: 0 <= i < j < |t| ==> t[i].slug != t[j].slug
    ensures forall k :: 0 <= k < |t| ==> t[k].slug == Some(Candidate(StartSlug(roles[k], slugify), ns[k]))
    ensures forall k :: 0 <= k < |t| && SlugUnique(roles, k) ==> t[k].slug == roles[k].slug
  {
    t := roles;
    var used: seq<string> := [];
    ns := [];
    var k := 0;
    while k < |roles|
      invariant Progress(roles, t, used, ns, k, slugify)
    {
      var r := t[k];
      var slug := StartSlug(r, slugify);
      var candidate, n := FreeSlug(t, used, r.id, slug);
      BackfillStep(roles, t, used, ns, k, slugify, candidate, n);
      used := used + [candidate];
      ns := ns + [n];
      t := t[k := t[k].(slug := Some(candidate))];
      k := k + 1;
    }
  }

  /** The chosen candidate is new, no later row holds it, and it is the row's own slug when
      that slug was unique. */
  lemma StepFresh(roles: seq<RoleRow>, t: seq<RoleRow>, used: seq<string>, ns: seq<nat>, k: nat, slugify: string -> string,
                  candidate: string, n: nat)
    requires InIdOrder(roles) && Progress(roles, t, used, ns, k, slugify) && k < |roles|
    requires candidate == Candidate(StartSlug(roles[k], slugify), n)
    requires !Blocked(t, used, candidate, roles[k].id)
    requires AllBlocked(t, used, roles[k].id, StartSlug(roles[k], slugify), n)
    ensures forall i :: 0 <= i < k ==> used[i] != candidate
    ensures forall j :: k < j < |roles| ==> roles[j].slug != Some(candidate)
    ensures SlugUnique(roles, k) ==> candidate == roles[k].slug.value
  {
    NotHeldLater(roles, t, k, candidate);
    if SlugUnique(roles, k) {
      var slug := StartSlug(roles[k], slugify);
      KeepsUniqueSlug(roles, t, used, k, slugify);
      FirstFree(t, used, roles[k].id, slug, n);
    }
  }

  /** A candidate no other row holds is not the slug of a later row. */
  lemma NotHeldLater(roles: seq<RoleRow>, t: seq<RoleRow>, k: nat, candidate: string)
    requires InIdOrder(roles) && |t| == |roles| && k < |roles|
    requires forall j :: k <= j < |roles| ==> t[j] == roles[j]
    requires !HeldByOther(t, candidate, roles[k].id)
    ensures forall j :: k < j < |roles| ==> roles[j].slug != Some(candidate)
  {
    forall j | k < j < |roles| ensures roles[j].slug != Some(candidate) {
      assert t[j] == roles[j] && t[j].id != roles[k].id;
    }
  }

  /** When the first candidate is free, the loop stops at it. */
  lemma FirstFree(t: seq<RoleRow>, used: seq<string>, id: nat, slug: string, n: nat)
    requires AllBlocked(t, used, id, slug, n)
    requires !Blocked(t, used, slug, id)
    ensures n == 0
  {
    if n > 0 {
      FirstBlocked(t, used, id, slug, n);
    }
  }

  lemma {:induction false} FirstBlocked(t: seq<RoleRow>, used: seq<string>, id: nat, slug: string, n: nat)
    requires n > 0 && AllBlocked(t, used, id, slug, n)
    ensures Blocked(t, used, slug, id)
  {
    if n > 1 {
      FirstBlocked(t, used, id, slug, n - 1);
    }
  }

  lemma BackfillStep(roles: seq<RoleRow>, t: seq<RoleRow>, used: seq<string>, ns: seq<nat>, k: nat, slugify: string -> string,
                     candidate: string, n: nat)
    requires InIdOrder(roles) && Progress(roles, t, used, ns, k, slugify) && k < |roles|
    requires candidate == Candidate(StartSlug(roles[k], slugify), n)
    requires !Blocked(t, used, candidate, roles[k].id)
    requires AllBlocked(t, used, roles[k].id, StartSlug(roles[k], slugify), n)
    ensures Progress(roles, t[k := t[k].(slug := Some(candidate))], used + [candidate], ns + [n], k + 1, slugify)
  {
    StepFresh(roles, t, used, ns, k, slugify, candidate, n);
    var t' := t[k := t[k].(slug := Some(candidate))];
    var used' := used + [candidate];
    var ns' := ns + [n];
    assert forall i :: 0 <= i < k ==> used'[i] == used[i] && ns'[i] == ns[i];
    assert used'[k] == candidate && ns'[k] == n;
    assert forall j :: 0 <= j < k ==> t'[j] == t[j];
  }

  /** A unique slug is free when its row's turn comes: earlier rows were kept off it, and
      later rows still hold their own slugs. */
  lemma KeepsUniqueSlug(roles: seq<RoleRow>, t: seq<RoleRow>, used: seq<string>, k: nat, slugify: string -> string)
    requires k < |roles| && |t| == |roles| && |used| == k
    requires forall j :: k <= j < |roles| ==> t[j] == roles[j]
    requires forall j :: 0 <= j < k ==> t[j] == roles[j].(slug := Some(used[j]))
    requires forall i, j :: 0 <= i < k <= j < |roles| ==> roles[j].slug != Some(used[i])
    requires InIdOrder(roles) && SlugUnique(roles, k)
    ensures StartSlug(roles[k], slugify) == roles[k].slug.value
    ensures !Blocked(t, used, roles[k].slug.value, roles[k].id)
  {
    var s := roles[k].slug.value;
    forall i | 0 <= i < k ensures used[i] != s {
    }
    forall j | 0 <= j < |t| && t[j].id != roles[k].id ensures t[j].slug != Some(s) {
      if j < k {
        assert t[j].slug == Some(used[j]);
      }
    }
  }

  // ---------------------------------------------------------------- the core roles

  function SlugIndex(t: seq<RoleRow>, slug: string): (r: Option<nat>)
    ensures r.Some? ==> r.value < |t| && t[r.value].slug == Some(slug)
    ensures r.None? <==> forall k :: 0 <= k < |t| ==> t[k].slug != Some(slug)
  {
    IndexWhere(t, (x: RoleRow) => x.slug == Some(slug))
  }

  /** One row of `upsert($rows, ['slug'], ['name', 'updated_at'])`. */
  function UpsertRole(t: seq<RoleRow>, slug: string, name: string, now: int): seq<RoleRow>
  {
    match SlugIndex(t, slug)
    case Some(k) => t[k := t[k].(name := name, updatedAt := Some(now))]
    case None => t + [RoleRow(NextId(t, RoleId), name, Some(slug), Some(now), Some(now))]
  }

  /** After one upsert the slug is held by a row of that name: the existing row, which only
      changes name and update time, or a new row under a fresh id. Rows with other slugs
      are untouched and distinct slugs stay distinct. */
  lemma UpsertRoleSpec(t: seq<RoleRow>, slug: string, name: string, now: int)
    ensures var t' := UpsertRole(t, slug, name, now);
      && |t| <= |t'| <= |t| + 1
      && (exists k :: 0 <= k < |t'| && t'[k].slug == Some(slug) && t'[k].name == name)
      && (forall k :: 0 <= k < |t| && t[k].slug != Some(slug) ==> t'[k] == t[k])
      && (forall k :: 0 <= k < |t| ==> t'[k].id == t[k].id && t'[k].slug == t[k].slug && t'[k].createdAt == t[k].createdAt)
      && (|t'| == |t| + 1 ==> t'[|t|].slug == Some(slug) && forall k :: 0 <= k < |t| ==> t[k].slug != Some(slug) && t[k].id != t'[|t|].id)
  {
    var t' := UpsertRole(t, slug, name, now);
    var f := SlugIndex(t, slug);
    if f.Some? {
      assert t'[f.value].slug == Some(slug);
    } else {
      assert t'[|t|].slug == Some(slug);
    }
  }

  lemma UpsertRoleDistinct(t: seq<RoleRow>, slug: string, name: string, now: int)
    requires forall i, j :: 0 <= i < j < |t| ==> t[i].slug != t[j].slug
    ensures var t' := UpsertRole(t, slug, name, now);
      forall i, j :: 0 <= i < j < |t'| ==> t'[i].slug != t'[j].slug
  {
    UpsertRoleSpec(t, slug, name, now);
  }

  /** Step 3: the three core roles. */
  function UpsertCoreRoles(t: seq<RoleRow>, now: int): seq<RoleRow>
  {
    UpsertRole(UpsertRole(UpsertRole(t, "admin", "Admin", now), "enforcer", "Enforcer", now), "cashier", "Cashier", now)
  }

  /** Some row holds `slug` under `name`. */
  predicate Holds(t: seq<RoleRow>, slug: string, name: string)
  {
    exists k :: 0 <= k < |t| && t[k].slug == Some(slug) && t[k].name == name
  }

  /** Upserting one slug leaves a row holding another slug as it was. */
  lemma UpsertKeepsHolds(t: seq<RoleRow>, slug: string, name: string, now: int, other: string, otherName: string)
    requires other != slug && Holds(t, other, otherName)
    ensures Holds(UpsertRole(t, slug, name, now), other, otherName)
  {
    UpsertRoleSpec(t, slug, name, now);
    var k :| 0 <= k < |t| && t[k].slug == Some(other) && t[k].name == otherName;
    assert UpsertRole(t, slug, name, now)[k] == t[k];
  }

  /** Afterwards admin, enforcer and cashier exist under their names. */
  lemma CoreRolesPresent(t: seq<RoleRow>, now: int)
    ensures var t' := UpsertCoreRoles(t, now);
      Holds(t', "admin", "Admin") && Holds(t', "enforcer", "Enforcer") && Holds(t', "cashier", "Cashier")
  {
    var t1 := UpsertRole(t, "admin", "Admin", now);
    var t2 := UpsertRole(t1, "enforcer", "Enforcer", now);
    UpsertRoleSpec(t, "admin", "Admin", now);
    UpsertRoleSpec(t1, "enforcer", "Enforcer", now);
    UpsertRoleSpec(t2, "cashier", "Cashier", now);
    UpsertKeepsHolds(t1, "enforcer", "Enforcer", now, "admin", "Admin");
    UpsertKeepsHolds(t2, "cashier", "Cashier", now, "admin", "Admin");
    UpsertKeepsHolds(t2, "cashier", "Cashier", now, "enforcer", "Enforcer");
  }

  /** `t'` extends `t`: the old rows keep id, slug and creation time and the new rows have
      a slug. */
  predicate Extends(t: seq<RoleRow>, t': seq<RoleRow>)
  {
    && |t| <= |t'|
    && (forall k :: 0 <= k < |t| ==> t'[k].id == t[k].id && t'[k].slug == t[k].slug && t'[k].createdAt == t[k].createdAt)
    && (forall k :: |t| <= k < |t'| ==> t'[k].slug.Some?)
  }

  lemma ExtendsTrans(t1: seq<RoleRow>, t2: seq<RoleRow>, t3: seq<RoleRow>)
    requires Extends(t1, t2) && Extends(t2, t3)
    ensures Extends(t1, t3)
  {
    forall k | |t1| <= k < |t3| ensures t3[k].slug.Some? {
      if k < |t2| {
        assert t3[k].slug == t2[k].slug;
      }
    }
  }

  /** One upsert extends the table and leaves rows with other slugs as they were. */
  lemma UpsertExtends(t: seq<RoleRow>, slug: string, name: string, now: int)
    ensures Extends(t, UpsertRole(t, slug, name, now))
    ensures forall k :: 0 <= k < |t| && t[k].slug != Some(slug) ==> UpsertRole(t, slug, name, now)[k] == t[k]
  {
    UpsertRoleSpec(t, slug, name, now);
  }

  /** A row with another slug is untouched; an existing core row keeps its id, slug and
      creation time; every row that had a slug still has one. */
  lemma CoreRolesKeep(t: seq<RoleRow>, now: int)
    ensures var t' := UpsertCoreRoles(t, now);
      && Extends(t, t')
      && (forall k :: 0 <= k < |t| && t[k].slug != Some("admin") && t[k].slug != Some("enforcer") && t[k].slug != Some("cashier") ==> t'[k] == t[k])
  {
    var t1 := UpsertRole(t, "admin", "Admin", now);
    var t2 := UpsertRole(t1, "enforcer", "Enforcer", now);
    var t3 := UpsertRole(t2, "cashier", "Cashier", now);
    UpsertExtends(t, "admin", "Admin", now);
    UpsertExtends(t1, "enforcer", "Enforcer", now);
    UpsertExtends(t2, "cashier", "Cashier", now);
    ExtendsTrans(t, t1, t2);
    ExtendsTrans(t, t2, t3);
  }

  lemma CoreRolesDistinct(t: seq<RoleRow>, now: int)
    requires forall i, j :: 0 <= i < j < |t| ==> t[i].slug != t[j].slug
    ensures var t' := UpsertCoreRoles(t, now);
      forall i, j :: 0 <= i < j < |t'| ==> t'[i].slug != t'[j].slug
  {
    var t1 := UpsertRole(t, "admin", "Admin", now);
    var t2 := UpsertRole(t1, "enforcer", "Enforcer", now);
    UpsertRoleDistinct(t, "admin", "Admin", now);
    UpsertRoleDistinct(t1, "enforcer", "Enforcer", now);
    UpsertRoleDistinct(t2, "cashier", "Cashier", now);
  }

  // ---------------------------------------------------------------- the known users

  const AdminEmail: string := "admin@mtvts.com"
  const EnforcerEmail: string := "enforcer@mtvts.com"

  /** The same accounts, row by row. */
  predicate SameAccounts(a: seq<UserRow>, b: seq<UserRow>)
  {
    |a| == |b| && forall k :: 0 <= k < |a| ==> a[k].id == b[k].id && a[k].email == b[k].email
  }

  lemma SameAccountsTrans(a: seq<UserRow>, b: seq<UserRow>, c: seq<UserRow>)
    requires SameAccounts(a, b) && SameAccounts(b, c)
    ensures SameAccounts(a, c)
  {
  }

  /** PHP truthiness of an id: null and 0 are false. */
  predicate IdTruthy(id: Option<nat>) { id.Some? && id.value != 0 }

  /** `where('email', $email)->update(['role_id' => $id])` */
  function SetRoleWhereEmail(users: seq<UserRow>, email: string, id: nat): (r: seq<UserRow>)
    ensures SameAccounts(users, r)
    ensures forall k :: 0 <= k < |users| ==> r[k] == if users[k].email == email then users[k].(roleId := Some(id)) else users[k]
  {
    Map(users, (u: UserRow) => if u.email == email then u.(roleId := Some(id)) else u)
  }

  /** Step 4: `where('slug', 'admin')->value('id')`, then the known admin gets that id. */
  function AssignAdmin(roles: seq<RoleRow>, users: seq<UserRow>): seq<UserRow>
  {
    var found := SlugIndex(roles, "admin");
    var adminId := if found.Some? then Some(roles[found.value].id) else None;
    if IdTruthy(adminId) then SetRoleWhereEmail(users, AdminEmail, adminId.value) else users
  }

  /** `cleanup_spatie_and_simple_roles::up` on the `roles` and `users` rows. */
  method CleanupUp(roles: seq<RoleRow>, users: seq<UserRow>, slugify: string -> string, now: int)
    returns (roles': seq<RoleRow>, users': seq<UserRow>, ghost t: seq<RoleRow>, ghost ns: seq<nat>)
    requires InIdOrder(roles)
    ensures |t| == |roles| && |ns| == |roles| && roles' == UpsertCoreRoles(t, now)
    ensures forall k :: 0 <= k < |t| ==> t[k] == roles[k].(slug := t[k].slug)
    ensures |roles| <= |roles'|
    ensures forall k :: 0 <= k < |roles| ==>
      && roles'[k].id == roles[k].id && roles'[k].createdAt == roles[k].createdAt
      && roles'[k].slug == Some(Candidate(StartSlug(roles[k], slugify), ns[k]))
    ensures forall k :: 0 <= k < |roles| && SlugUnique(roles, k) ==> roles'[k].slug == roles[k].slug
    ensures forall k :: 0 <= k < |roles| && roles'[k].slug != Some("admin") && roles'[k].slug != Some("enforcer") && roles'[k].slug != Some("cashier") ==>
      roles'[k] == roles[k].(slug := roles'[k].slug)
    ensures forall i, j :: 0 <= i < j < |roles'| ==> roles'[i].slug != roles'[j].slug
    ensures forall k :: 0 <= k < |roles'| ==> roles'[k].slug.Some?
    ensures Holds(roles', "admin", "Admin") && Holds(roles', "enforcer", "Enforcer") && Holds(roles', "cashier", "Cashier")
    ensures users' == AssignAdmin(roles', users)
  {
    var backfilled;
    backfilled, ns := BackfillSlugs(roles, slugify);
    t := backfilled;
    roles' := UpsertCoreRoles(backfilled, now);
    CoreRolesPresent(t, now);
    CoreRolesKeep(t, now);
    CoreRolesDistinct(t, now);
    users' := AssignAdmin(roles', users);
  }

  /** With the core roles in place, the known admin ends with the admin role's id (unless
      that id is 0, which PHP reads as false). */
  lemma KnownAdminGetsRole(roles: seq<RoleRow>, users: seq<UserRow>, k: nat)
    requires k < |users| && users[k].email == AdminEmail
    requires SlugIndex(roles, "admin").Some? && roles[SlugIndex(roles, "admin").value].id != 0
    ensures AssignAdmin(roles, users)[k].roleId == Some(roles[SlugIndex(roles, "admin").value].id)
    ensures forall j :: 0 <= j < |users| && users[j].email != AdminEmail ==> AssignAdmin(roles, users)[j] == users[j]
  {
  }

  // ---------------------------------------------------------------- force_drop_role_column_fix

  /** The `users` table while it may still carry the legacy column. */
  datatype UsersTable = UsersTable(rows: seq<UserRow>, hasRoleColumn: bool, hasRoleIdColumn: bool)

  /** `pluck('id', 'slug')[$slug] ?? null`: a later row with the same slug wins. */
  function PluckId(roles: seq<RoleRow>, slug: string): (r: Option<nat>)
    ensures r.None? <==> forall k :: 0 <= k < |roles| ==> roles[k].slug != Some(slug)
    ensures r.Some? ==> exists k :: 0 <= k < |roles| && roles[k].slug == Some(slug) && roles[k].id == r.value
  {
    if roles == [] then None
    else
      var last := roles[|roles| - 1];
      if last.slug == Some(slug) then Some(last.id) else PluckId(roles[..|roles| - 1], slug)
  }

  /** `where('role', $role)->whereNull('role_id')->update(['role_id' => $id])` */
  function BackfillRole(users: seq<UserRow>, role: string, id: nat): (r: seq<UserRow>)
    ensures SameAccounts(users, r)
    ensures forall k :: 0 <= k < |users| ==>
      r[k] == if users[k].role == Some(role) && users[k].roleId.None? then users[k].(roleId := Some(id)) else users[k]
  {
    Map(users, (u: UserRow) => if u.role == Some(role) && u.roleId.None? then u.(roleId := Some(id)) else u)
  }

  /** `dropColumn('role')` */
  function DropRole(users: seq<UserRow>): (r: seq<UserRow>)
    ensures SameAccounts(users, r)
    ensures forall k :: 0 <= k < |users| ==> r[k] == users[k].(role := None)
  {
    Map(users, (u: UserRow) => u.(role := None))
  }

  /** `force_drop_role_column_fix::up`; None stands for a missing `users` table. */
  method ForceDropUp(users: Option<UsersTable>, roles: seq<RoleRow>) returns (r: Option<UsersTable>)
    ensures users.None? ==> r.None?
    ensures users.Some? ==> r == Some(ForceDropped(users.value, roles))
  {
    if users.None? {
      return None;
    }
    var t := users.value.rows;
    if users.value.hasRoleColumn && users.value.hasRoleIdColumn {
      var adminId := PluckId(roles, "admin");
      var enforcerId := PluckId(roles, "enforcer");
      if IdTruthy(adminId) {
        t := BackfillRole(t, "admin", adminId.value);
        t := SetRoleWhereEmail(t, AdminEmail, adminId.value);
      }
      if IdTruthy(enforcerId) {
        t := BackfillRole(t, "enforcer", enforcerId.value);
        t := SetRoleWhereEmail(t, EnforcerEmail, enforcerId.value);
      }
    }
    if users.value.hasRoleColumn {
      t := DropRole(t);
    }
    return Some(UsersTable(t, false, users.value.hasRoleIdColumn));
  }

  /** The table `ForceDropUp` leaves. */
  function ForceDropped(users: UsersTable, roles: seq<RoleRow>): UsersTable
  {
    var adminId := PluckId(roles, "admin");
    var enforcerId := PluckId(roles, "enforcer");
    var backfill := users.hasRoleColumn && users.hasRoleIdColumn;
    var t1 := if backfill && IdTruthy(adminId) then SetRoleWhereEmail(BackfillRole(users.rows, "admin", adminId.value), AdminEmail, adminId.value) else users.rows;
    var t2 := if backfill && IdTruthy(enforcerId) then SetRoleWhereEmail(BackfillRole(t1, "enforcer", enforcerId.value), EnforcerEmail, enforcerId.value) else t1;
    UsersTable(if users.hasRoleColumn then DropRole(t2) else t2, false, users.hasRoleIdColumn)
  }

  /** The legacy column is gone and no row changes but its `role_id`. */
  lemma ForceDroppedShape(users: UsersTable, roles: seq<RoleRow>)
    ensures var t := ForceDropped(users, roles).rows;
      && !ForceDropped(users, roles).hasRoleColumn
      && SameAccounts(users.rows, t)
      && (users.hasRoleColumn ==> forall k :: 0 <= k < |t| ==> t[k].role.None?)
  {
    var adminId := PluckId(roles, "admin");
    var enforcerId := PluckId(roles, "enforcer");
    var backfill := users.hasRoleColumn && users.hasRoleIdColumn;
    var t1 := if backfill && IdTruthy(adminId) then SetRoleWhereEmail(BackfillRole(users.rows, "admin", adminId.value), AdminEmail, adminId.value) else users.rows;
    var t2 := if backfill && IdTruthy(enforcerId) then SetRoleWhereEmail(BackfillRole(t1, "enforcer", enforcerId.value), EnforcerEmail, enforcerId.value) else t1;
    if backfill && IdTruthy(adminId) {
      SameAccountsTrans(users.rows, BackfillRole(users.rows, "admin", adminId.value), t1);
    }
    if backfill && IdTruthy(enforcerId) {
      SameAccountsTrans(t1, BackfillRole(t1, "enforcer", enforcerId.value), t2);
    }
    SameAccountsTrans(users.rows, t1, t2);
  }

  /** A user with a `role_id` keeps it unless it is one of the two known accounts, and so
      does a legacy admin (enforcer) when the admin (enforcer) slug is missing or has
      id 0. */
  lemma ForceDroppedKeeps(users: UsersTable, roles: seq<RoleRow>, k: nat)
    requires k < |users.rows|
    ensures var t := ForceDropped(users, roles).rows;
      var u := users.rows[k];
      && (u.roleId.Some? && u.email != AdminEmail && u.email != EnforcerEmail ==> t[k].roleId == u.roleId)
      && (u.email != AdminEmail && u.email != EnforcerEmail && u.role == Some("admin") && !IdTruthy(PluckId(roles, "admin")) ==> t[k].roleId == u.roleId)
      && (u.email != AdminEmail && u.email != EnforcerEmail && u.role == Some("enforcer") && !IdTruthy(PluckId(roles, "enforcer")) ==> t[k].roleId == u.roleId)
  {
  }

  /** With both columns present, the known accounts are forced to their role's id when that
      slug exists with a nonzero id. */
  lemma ForceDroppedKnown(users: UsersTable, roles: seq<RoleRow>, k: nat)
    requires users.hasRoleColumn && users.hasRoleIdColumn && k < |users.rows|
    ensures var t := ForceDropped(users, roles).rows;
      var u := users.rows[k];
      && (u.email == EnforcerEmail && IdTruthy(PluckId(roles, "enforcer")) ==> t[k].roleId == PluckId(roles, "enforcer"))
      && (u.email == AdminEmail && IdTruthy(PluckId(roles, "admin")) ==> t[k].roleId == PluckId(roles, "admin"))
  {
  }

  /** With both columns present, a legacy admin or enforcer without a `role_id` gets that
      role's id when its slug exists with a nonzero id. */
  lemma ForceDroppedLegacy(users: UsersTable, roles: seq<RoleRow>, k: nat)
    requires users.hasRoleColumn && users.hasRoleIdColumn && k < |users.rows|
    ensures var t := ForceDropped(users, roles).rows;
      var u := users.rows[k];
      var adminId := PluckId(roles, "admin");
      var enforcerId := PluckId(roles, "enforcer");
      && (u.email != EnforcerEmail && u.role == Some("admin") && u.roleId.None? && IdTruthy(adminId) ==> t[k].roleId == adminId)
      && (u.email != AdminEmail && u.role == Some("enforcer") && u.roleId.None? && IdTruthy(enforcerId) ==> t[k].roleId == enforcerId)
  {
  }
}

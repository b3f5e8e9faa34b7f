/** `AdminUserResource::toArray`: the JSON an admin sees for one user, with its display
    name and a role name found through a chain of fallbacks. `json_decode` is a
    parameter. */
module AdminUsers {
  import opened Wrappers
  import opened Seqs
  import opened Text
  import opened RoleMigrations

  /** What `json_decode($role, true)` yields: not an array, or an array with these keys. */
  datatype Decoded = NotArray | ArrayValue(name: Option<string>, slug: Option<string>)

  /** The attributes of a user the resource reads. `loadedRoles` is the loaded `roles`
      relation (the names of its rows, in order), None when there is no such relation or
      it is not loaded; `roleText` is the `role` attribute when it is a string. */
  datatype UserView = UserView(
    id: nat,
    fullName: Option<string>,
    name: Option<string>,
    email: Option<string>,
    loadedRoles: Option<seq<Option<string>>>,
    roleId: Option<nat>,
    roleText: Option<string>,
    roleNameColumn: Option<string>,
    roleNameCamel: Option<string>,
    active: Option<bool>,
    avatarUrl: Option<string>)

  datatype UserJson = UserJson(id: string, name: Option<string>, email: Option<string>, role: Option<string>, active: bool, avatarUrl: Option<string>)

  /** `full_name ?? name ?? email ?? null` */
  function DisplayName(u: UserView): (r: Option<string>)
    ensures r.None? <==> u.fullName.None? && u.name.None? && u.email.None?
    ensures r.Some? ==> r == u.fullName || r == u.name || r == u.email
  {
    u.fullName.OrElse(u.name).OrElse(u.email)
  }

  /** Step 1: the name of the first loaded role. */
  function FromRelation(u: UserView): Option<string>
  {
    if u.loadedRoles.Some? && |u.loadedRoles.value| > 0 then u.loadedRoles.value[0] else None
  }

  /** `DB::table('roles')->where('id', $id)->first()`: the first row with that id. */
  function RoleById(roles: seq<RoleRow>, id: nat): (r: Option<nat>)
    ensures r.Some? ==> r.value < |roles| && roles[r.value].id == id
    ensures r.None? <==> forall k :: 0 <= k < |roles| ==> roles[k].id != id
  {
    IndexWhere(roles, (x: RoleRow) => x.id == id)
  }

  /** Step 2: the name of the `roles` row `role_id` points at. */
  function FromRoleId(u: UserView, roles: seq<RoleRow>): Option<string>
  {
    if u.roleId.None? then None
    else
      match RoleById(roles, u.roleId.value)
      case None => None
      case Some(k) => Some(roles[k].name)
  }

  /** Step 3: the decoded array's name, else its slug; or the raw string when it does not
      decode to an array. */
  function FromRoleText(u: UserView, decode: string -> Decoded): Option<string>
  {
    if u.roleText.None? then None
    else
      match decode(u.roleText.value)
      case ArrayValue(name, slug) => name.OrElse(slug)
      case NotArray => u.roleText
  }

  /** Step 4: `role_name ?? roleName ?? null` */
  function FromColumns(u: UserView): Option<string>
  {
    u.roleNameColumn.OrElse(u.roleNameCamel)
  }

  /** The role name: each step runs only while the name is still null. */
  function RoleName(u: UserView, roles: seq<RoleRow>, decode: string -> Decoded): Option<string>
  {
    var r1 := FromRelation(u);
    var r2 := if r1.None? then FromRoleId(u, roles) else r1;
    var r3 := if r2.None? then FromRoleText(u, decode) else r2;
    if r3.None? then FromColumns(u) else r3
  }

  /** `toArray` */
  function ToArray(u: UserView, roles: seq<RoleRow>, decode: string -> Decoded): UserJson
  {
    UserJson(Padded(u.id, 0), DisplayName(u), u.email, RoleName(u, roles, decode), u.active.GetOr(false), u.avatarUrl)
  }

  /** The steps in priority order: the first loaded role's name when there is one; else the
      name of the row `role_id` points at; else the decoded name or slug, or the raw string;
      else the role-name columns. */
  lemma RoleNamePriority(u: UserView, roles: seq<RoleRow>, decode: string -> Decoded)
    ensures var r := RoleName(u, roles, decode);
      && (u.loadedRoles.Some? && |u.loadedRoles.value| > 0 && u.loadedRoles.value[0].Some? ==> r == u.loadedRoles.value[0])
      && (FromRelation(u).None? && u.roleId.Some? && (exists k :: 0 <= k < |roles| && roles[k].id == u.roleId.value) ==>
            exists k :: 0 <= k < |roles| && roles[k].id == u.roleId.value && r == Some(roles[k].name))
      && (FromRelation(u).None? && FromRoleId(u, roles).None? && u.roleText.Some? && decode(u.roleText.value).NotArray? ==> r == u.roleText)
      && (FromRelation(u).None? && FromRoleId(u, roles).None? && u.roleText.Some? && decode(u.roleText.value).ArrayValue? ==>
            var d := decode(u.roleText.value);
            (d.name.Some? ==> r == d.name) && (d.name.None? && d.slug.Some? ==> r == d.slug))
      && (FromRelation(u).None? && FromRoleId(u, roles).None? && FromRoleText(u, decode).None? ==>
            (u.roleNameColumn.Some? ==> r == u.roleNameColumn) && (u.roleNameColumn.None? ==> r == u.roleNameCamel))
  {
    if FromRelation(u).None? && u.roleId.Some? && (exists k :: 0 <= k < |roles| && roles[k].id == u.roleId.value) {
      var k := RoleById(roles, u.roleId.value).value;
      assert roles[k].id == u.roleId.value;
    }
  }

  /** The role is null exactly when every step finds nothing. */
  lemma RoleNameNone(u: UserView, roles: seq<RoleRow>, decode: string -> Decoded)
    ensures RoleName(u, roles, decode).None? <==>
      && (u.loadedRoles.None? || |u.loadedRoles.value| == 0 || u.loadedRoles.value[0].None?)
      && (u.roleId.None? || forall k :: 0 <= k < |roles| ==> roles[k].id != u.roleId.value)
      && (u.roleText.None? || (decode(u.roleText.value).ArrayValue? && decode(u.roleText.value).name.None? && decode(u.roleText.value).slug.None?))
      && u.roleNameColumn.None? && u.roleNameCamel.None?
  {
  }

  /** A role name found is one of the user's own values or the name of a `roles` row. */
  lemma RoleNameOrigin(u: UserView, roles: seq<RoleRow>, decode: string -> Decoded)
    requires RoleName(u, roles, decode).Some?
    ensures var r := RoleName(u, roles, decode);
      || (u.loadedRoles.Some? && |u.loadedRoles.value| > 0 && r == u.loadedRoles.value[0])
      || (exists k :: 0 <= k < |roles| && r == Some(roles[k].name))
      || (u.roleText.Some? && (r == u.roleText || r == decode(u.roleText.value).name || r == decode(u.roleText.value).slug))
      || r == u.roleNameColumn || r == u.roleNameCamel
  {
    var r := RoleName(u, roles, decode);
    if FromRelation(u).None? && FromRoleId(u, roles).Some? {
      var k := RoleById(roles, u.roleId.value).value;
      assert r == Some(roles[k].name);
    }
  }

  /** `(string) $id` reads back as the id; `active` defaults to false; the other fields
      are copied. */
  lemma ToArraySpec(u: UserView, roles: seq<RoleRow>, decode: string -> Decoded)
    ensures var j := ToArray(u, roles, decode);
      && IntCast(j.id) == u.id && AllDigits(j.id)
      && (j.active <==> u.active == Some(true))
      && j.email == u.email && j.avatarUrl == u.avatarUrl
      && j.name == DisplayName(u) && j.role == RoleName(u, roles, decode)
  {
    IntCastPadded(u.id, 0);
  }
}

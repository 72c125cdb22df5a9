/** The user directory (`wsoSysUser`) and its role assignments
    (`wsoUserRole`): unique logins and e-mail addresses, a department
    reference checked on write, an active flag, and a set of (user, role)
    pairs kept by upsert.

    Password hashing is foreign code: the hash a write stores is a
    parameter. The department table and the role table (role code to role
    id) are read here but written elsewhere, so they are parameters too.
    Profile fields the service copies verbatim (names, phone numbers, dates
    of birth and hire, and so on) are not part of this model. */
module Users {
  import opened Common
  import opened Query

  datatype User = User(
    id: nat,
    userLogin: string,
    email: string,
    passwordHash: string,
    displayName: Option<string>,
    departmentId: Option<nat>,
    isActive: bool)

  datatype NewUser = NewUser(
    userLogin: string,
    email: string,
    displayName: Option<string>,
    departmentId: Option<nat>,
    isActive: Option<bool>)

  /** The body of an update request; `None` is a field left out. Display
      name and department may also be sent as null, which clears them. */
  datatype UserEdit = UserEdit(
    email: Option<string>,
    password: Option<string>,
    displayName: Patch<string>,
    departmentId: Patch<nat>,
    isActive: Option<bool>)

  datatype Error =
    | NotFound(id: nat)
    | LoginTaken(login: string)
    | EmailTaken(email: string)
    | DepartmentNotFound(departmentId: nat)
    | RoleNotFound(code: string)
    | NotAssigned(userId: nat, roleId: nat)

  /** The page window of `list`. */
  datatype Window = Window(page: int, limit: int, skip: int)

  /** One page of `list`. */
  datatype Listing = Listing(page: int, limit: int, total: nat, items: seq<User>)

  function Max(a: int, b: int): int { if a >= b then a else b }
  function Min(a: int, b: int): int { if a <= b then a else b }

  /** `list`'s clamp: the page is at least 1 (default 1) and the limit lies
      in 1..50 (default 10), so the skip is never negative; values already
      in range are kept. */
  function ListWindow(page: Option<int>, limit: Option<int>): (w: Window)
    ensures w.page >= 1 && 1 <= w.limit <= 50
    ensures w.skip == (w.page - 1) * w.limit && w.skip >= 0
    ensures page.None? ==> w.page == 1
    ensures limit.None? ==> w.limit == 10
    ensures page.Some? && page.value >= 1 ==> w.page == page.value
    ensures limit.Some? && 1 <= limit.value <= 50 ==> w.limit == limit.value
  {
    var p := Max(1, page.GetOr(1));
    var l := Min(50, Max(1, limit.GetOr(10)));
    Window(p, l, (p - 1) * l)
  }

  /** The `where` of `list` without the text search. */
  predicate Listed(departmentId: Option<nat>, isActive: Option<bool>, u: User) {
    && (departmentId.Some? ==> u.departmentId == departmentId)
    && (isActive.Some? ==> u.isActive == isActive.value)
  }

  /** A JavaScript id that counts as given: present and not 0. */
  predicate Given(x: Option<nat>) {
    x.Some? && x.value != 0
  }

  /** A department an update sets that counts as given: not null and not 0. */
  predicate SetsDepartment(p: Patch<nat>) {
    p.Set? && p.value != 0
  }

  /** The row `create` inserts: active unless the caller says otherwise. */
  function Enrolled(id: nat, dto: NewUser, hash: string): (u: User)
    ensures u.id == id && u.userLogin == dto.userLogin && u.email == dto.email && u.passwordHash == hash
    ensures u.displayName == dto.displayName
    ensures u.isActive == dto.isActive.GetOr(true) && u.departmentId == dto.departmentId
  {
    User(id, dto.userLogin, dto.email, hash, dto.displayName, dto.departmentId, dto.isActive.GetOr(true))
  }

  /** The row after `update`: given fields replace stored ones, a null
      display name or department clears it, a non-empty password replaces
      the hash, and left-out fields stay. */
  function Edited(u: User, dto: UserEdit, hash: string): (r: User)
    ensures r.id == u.id && r.userLogin == u.userLogin
    ensures dto.email.None? ==> r.email == u.email
    ensures dto.email.Some? ==> r.email == dto.email.value
    ensures r.passwordHash == if dto.password.Some? && dto.password.value != "" then hash else u.passwordHash
    ensures dto.displayName.Keep? ==> r.displayName == u.displayName
    ensures dto.displayName.Clear? ==> r.displayName.None?
    ensures dto.displayName.Set? ==> r.displayName == Some(dto.displayName.value)
    ensures dto.departmentId.Keep? ==> r.departmentId == u.departmentId
    ensures dto.departmentId.Clear? ==> r.departmentId.None?
    ensures dto.departmentId.Set? ==> r.departmentId == Some(dto.departmentId.value)
    ensures r.isActive == dto.isActive.GetOr(u.isActive)
  {
    u.(email := dto.email.GetOr(u.email),
       passwordHash := if dto.password.Some? && dto.password.value != "" then hash else u.passwordHash,
       displayName := dto.displayName.Apply(u.displayName),
       departmentId := dto.departmentId.Apply(u.departmentId),
       isActive := dto.isActive.GetOr(u.isActive))
  }

  /** The user table the service keeps: ids rise along the table (each new
      user gets the next id), and no two users share a login or an e-mail. */
  ghost predicate WellKept(users: seq<User>, nextId: nat) {
    && nextId > 0
    && (forall i :: 0 <= i < |users| ==> 0 < users[i].id < nextId)
    && (forall i, j :: 0 <= i < j < |users| ==> users[i].id < users[j].id)
    && (forall i, j :: 0 <= i < j < |users| ==> users[i].userLogin != users[j].userLogin)
    && (forall i, j :: 0 <= i < j < |users| ==> users[i].email != users[j].email)
  }

  /** Rewriting one row under its own id and login, with an e-mail nobody
      else holds, keeps the table well kept. */
  lemma RewriteKeepsWellKept(users: seq<User>, nextId: nat, i: nat, u: User)
    requires WellKept(users, nextId) && i < |users|
    requires u.id == users[i].id && u.userLogin == users[i].userLogin
    requires forall j :: 0 <= j < |users| && j != i ==> users[j].email != u.email
    ensures WellKept(users[i := u], nextId)
  {
  }

  /** Removing one row keeps the table well kept. */
  lemma DeleteKeepsWellKept(users: seq<User>, nextId: nat, i: nat)
    requires WellKept(users, nextId) && i < |users|
    ensures WellKept(users[..i] + users[i + 1..], nextId)
  {
    var r := users[..i] + users[i + 1..];
    forall a, b | 0 <= a < b < |r|
      ensures r[a].id < r[b].id && r[a].userLogin != r[b].userLogin && r[a].email != r[b].email
    {
      var a' := if a < i then a else a + 1;
      var b' := if b < i then b else b + 1;
      assert r[a] == users[a'] && r[b] == users[b'];
    }
  }

  class Directory {
    var users: seq<User>
    var nextId: nat
    /** The (user id, role id) pairs, each with who assigned it. */
    var userRoles: map<(nat, nat), Option<nat>>

    ghost predicate Valid()
      reads this
    {
      WellKept(users, nextId)
    }

    constructor ()
      ensures Valid() && users == [] && nextId == 1 && userRoles == map[]
    {
      users := [];
      nextId := 1;
      userRoles := map[];
    }

    function IndexOf(id: nat): Option<nat>
      reads this
    {
      FindFirst(users, (u: User) => u.id == id)
    }

    /** `list` (without the text search): the clamped page of the matching
        users, highest id first, and how many match in all. */
    function List(page: Option<int>, limit: Option<int>, departmentId: Option<nat>, isActive: Option<bool>): (r: Listing)
      reads this
      requires Valid()
      ensures r.page >= 1 && 1 <= r.limit <= 50 && |r.items| <= r.limit
      ensures r.total == Count(users, u => Listed(departmentId, isActive, u))
      ensures forall i :: 0 <= i < |r.items| ==> r.items[i] in users && Listed(departmentId, isActive, r.items[i])
      ensures forall i, j :: 0 <= i < j < |r.items| ==> r.items[i].id > r.items[j].id
      ensures r.page == ListWindow(page, limit).page && r.limit == ListWindow(page, limit).limit
      ensures var skip := ListWindow(page, limit).skip;
        |r.items| == if skip >= r.total then 0 else if skip + r.limit <= r.total then r.limit else r.total - skip
      ensures r.items == NewestFirstWindow(Where(users, u => Listed(departmentId, isActive, u)), ListWindow(page, limit).skip as nat, r.limit as nat)
    {
      var w := ListWindow(page, limit);
      var matching := Where(users, u => Listed(departmentId, isActive, u));
      assert Rising(users, (u: User) => u.id);
      WhereKeepsOrder(users, u => Listed(departmentId, isActive, u), (u: User) => u.id);
      NewestFirstPage(matching, w.skip, w.limit, (u: User) => u.id);
      var items := NewestFirstWindow(matching, w.skip, w.limit);
      Listing(w.page, w.limit, |matching|, items)
    }

    /** `create`: refuses a login in use, then an e-mail in use, then a
        given department that does not exist; otherwise appends the
        `Enrolled` row under the next id. */
    method Create(dto: NewUser, hash: string, departments: set<nat>) returns (r: Result<User, Error>)
      requires Valid()
      modifies this
      ensures Valid() && userRoles == old(userRoles)
      ensures (exists i :: 0 <= i < |old(users)| && old(users)[i].userLogin == dto.userLogin) ==>
        r == Err(LoginTaken(dto.userLogin))
      ensures ((forall i :: 0 <= i < |old(users)| ==> old(users)[i].userLogin != dto.userLogin)
               && (exists i :: 0 <= i < |old(users)| && old(users)[i].email == dto.email)) ==>
        r == Err(EmailTaken(dto.email))
      ensures ((forall i :: 0 <= i < |old(users)| ==> old(users)[i].userLogin != dto.userLogin && old(users)[i].email != dto.email)
               && Given(dto.departmentId) && dto.departmentId.value !in departments) ==>
        r == Err(DepartmentNotFound(dto.departmentId.value))
      ensures r.Ok? <==>
        && (forall i :: 0 <= i < |old(users)| ==> old(users)[i].userLogin != dto.userLogin && old(users)[i].email != dto.email)
        && (Given(dto.departmentId) ==> dto.departmentId.value in departments)
      ensures r.Ok? ==> r.value == Enrolled(old(nextId), dto, hash) && users == old(users) + [r.value]
      ensures r.Err? ==> users == old(users) && nextId == old(nextId)
    {
      var byLogin := FindFirst(users, (u: User) => u.userLogin == dto.userLogin);
      if byLogin.Some? {
        return Err(LoginTaken(dto.userLogin));
      }
      var byEmail := FindFirst(users, (u: User) => u.email == dto.email);
      if byEmail.Some? {
        return Err(EmailTaken(dto.email));
      }
      if Given(dto.departmentId) && dto.departmentId.value !in departments {
        return Err(DepartmentNotFound(dto.departmentId.value));
      }
      var u := Enrolled(nextId, dto, hash);
      users := users + [u];
      nextId := nextId + 1;
      r := Ok(u);
    }

    /** `update`: NotFound for an unknown id; a new e-mail (different from
        the user's own) held by another user is refused, as is a given
        department that does not exist; otherwise the row becomes `Edited`.
        A given e-mail is never empty (the request validator demands an
        address). */
    method Update(id: nat, dto: UserEdit, hash: string, departments: set<nat>) returns (r: Result<User, Error>)
      requires Valid()
      requires dto.email.Some? ==> dto.email.value != ""
      modifies this
      ensures Valid() && nextId == old(nextId) && userRoles == old(userRoles)
      ensures old(IndexOf(id)).None? ==> r == Err(NotFound(id)) && users == old(users)
      ensures old(IndexOf(id)).Some? ==>
        var i := old(IndexOf(id)).value;
        && (r.Ok? <==>
              && (dto.email.Some? ==> forall j :: 0 <= j < |old(users)| && j != i ==> old(users)[j].email != dto.email.value)
              && (SetsDepartment(dto.departmentId) ==> dto.departmentId.value in departments))
        && (r.Ok? ==> r.value == Edited(old(users)[i], dto, hash) && users == old(users)[i := r.value])
        && (dto.email.Some? && (exists j :: 0 <= j < |old(users)| && j != i && old(users)[j].email == dto.email.value) ==>
              r == Err(EmailTaken(dto.email.value)))
        && ((dto.email.Some? ==> forall j :: 0 <= j < |old(users)| && j != i ==> old(users)[j].email != dto.email.value)
            && SetsDepartment(dto.departmentId) && dto.departmentId.value !in departments ==>
              r == Err(DepartmentNotFound(dto.departmentId.value)))
      ensures r.Err? ==> users == old(users)
    {
      var found := IndexOf(id);
      if found.None? {
        return Err(NotFound(id));
      }
      var i := found.value;
      if dto.email.Some? && dto.email.value != users[i].email {
        var holder := FindFirst(users, (u: User) => u.email == dto.email.value);
        if holder.Some? {
          return Err(EmailTaken(dto.email.value));
        }
      }
      if SetsDepartment(dto.departmentId) && dto.departmentId.value !in departments {
        return Err(DepartmentNotFound(dto.departmentId.value));
      }
      var u := Edited(users[i], dto, hash);
      RewriteKeepsWellKept(users, nextId, i, u);
      users := users[i := u];
      r := Ok(u);
    }

    /** `remove`: NotFound for an unknown id; otherwise deletes that row. */
    method Remove(id: nat) returns (r: Result<(), Error>)
      requires Valid()
      modifies this
      ensures Valid() && nextId == old(nextId) && userRoles == old(userRoles)
      ensures old(IndexOf(id)).None? ==> r == Err(NotFound(id)) && users == old(users)
      ensures old(IndexOf(id)).Some? ==>
        var i := old(IndexOf(id)).value;
        r == Ok(()) && users == old(users)[..i] + old(users)[i + 1..]
    {
      var found := IndexOf(id);
      if found.None? {
        return Err(NotFound(id));
      }
      var i := found.value;
      DeleteKeepsWellKept(users, nextId, i);
      users := users[..i] + users[i + 1..];
      r := Ok(());
    }

    /** `activate` / `deactivate`: sets `isActive` of one user; an unknown
        id is the ORM's record-not-found error. */
    method SetActive(id: nat, active: bool) returns (r: Result<(), Error>)
      requires Valid()
      modifies this
      ensures Valid() && nextId == old(nextId) && userRoles == old(userRoles)
      ensures old(IndexOf(id)).None? ==> r == Err(NotFound(id)) && users == old(users)
      ensures old(IndexOf(id)).Some? ==>
        var i := old(IndexOf(id)).value;
        r == Ok(()) && users == old(users)[i := old(users)[i].(isActive := active)]
    {
      var found := IndexOf(id);
      if found.None? {
        return Err(NotFound(id));
      }
      var i := found.value;
      RewriteKeepsWellKept(users, nextId, i, users[i].(isActive := active));
      users := users[i := users[i].(isActive := active)];
      r := Ok(());
    }

    /** `assignRole`: refuses an unknown user, then an unknown role code;
        otherwise the pair is present afterwards, and an existing pair keeps
        who assigned it first. */
    method AssignRole(userId: nat, roleCode: string, assignedBy: Option<nat>, roles: map<string, nat>)
      returns (r: Result<(), Error>)
      requires Valid()
      modifies this
      ensures Valid() && users == old(users) && nextId == old(nextId)
      ensures old(IndexOf(userId)).None? ==> r == Err(NotFound(userId)) && userRoles == old(userRoles)
      ensures old(IndexOf(userId)).Some? && roleCode !in roles ==> r == Err(RoleNotFound(roleCode)) && userRoles == old(userRoles)
      ensures old(IndexOf(userId)).Some? && roleCode in roles ==>
        && r == Ok(())
        && userRoles == if (userId, roles[roleCode]) in old(userRoles) then old(userRoles)
                        else old(userRoles)[(userId, roles[roleCode]) := assignedBy]
    {
      var found := IndexOf(userId);
      if found.None? {
        return Err(NotFound(userId));
      }
      if roleCode !in roles {
        return Err(RoleNotFound(roleCode));
      }
      var pair := (userId, roles[roleCode]);
      if pair !in userRoles {
        userRoles := userRoles[pair := assignedBy];
      }
      r := Ok(());
    }

    /** `removeRole`: refuses an unknown role code, and a pair that is not
        there (the ORM's record-not-found error); otherwise removes exactly
        that pair. The user's existence is not checked. */
    method RemoveRole(userId: nat, roleCode: string, roles: map<string, nat>) returns (r: Result<(), Error>)
      requires Valid()
      modifies this
      ensures Valid() && users == old(users) && nextId == old(nextId)
      ensures roleCode !in roles ==> r == Err(RoleNotFound(roleCode)) && userRoles == old(userRoles)
      ensures roleCode in roles ==>
        && (r == Ok(()) <==> (userId, roles[roleCode]) in old(userRoles))
        && userRoles == old(userRoles) - {(userId, roles[roleCode])}
    {
      if roleCode !in roles {
        return Err(RoleNotFound(roleCode));
      }
      var pair := (userId, roles[roleCode]);
      if pair !in userRoles {
        return Err(NotAssigned(userId, roles[roleCode]));
      }
      userRoles := userRoles - {pair};
      r := Ok(());
    }
  }

  /** Assigning the same role twice is assigning it once. */
  method AssignTwice(d: Directory, userId: nat, roleCode: string, assigner: Option<nat>, again: Option<nat>, roles: map<string, nat>)
    returns (first: Result<(), Error>, second: Result<(), Error>)
    requires d.Valid()
    modifies d
    ensures first == second
    ensures roleCode in roles && first.Ok? ==>
      (userId, roles[roleCode]) in d.userRoles && |d.userRoles.Keys| == |old(d.userRoles).Keys| + (if (userId, roles[roleCode]) in old(d.userRoles) then 0 else 1)
  {
    first := d.AssignRole(userId, roleCode, assigner, roles);
    ghost var between := d.userRoles;
    second := d.AssignRole(userId, roleCode, again, roles);
    assert d.userRoles == between;
  }

  /** Assigning a role and then removing it takes the pair away again. */
  method AssignThenRemove(d: Directory, userId: nat, roleCode: string, assigner: Option<nat>, roles: map<string, nat>)
    returns (granted: Result<(), Error>, revoked: Result<(), Error>)
    requires d.Valid()
    modifies d
    ensures granted.Ok? && roleCode in roles ==> revoked.Ok? && d.userRoles == old(d.userRoles) - {(userId, roles[roleCode])}
  {
    granted := d.AssignRole(userId, roleCode, assigner, roles);
    revoked := d.RemoveRole(userId, roleCode, roles);
  }
}

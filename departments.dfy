/** The department table: departments with a unique code, an optional
    manager and an optional parent department, forming a hierarchy that the
    service keeps free of loops.

    Department ids start at 1, so a parent id of 0 (or none) ends a walk up
    the hierarchy, exactly as the service's `while (current)` does. The user
    table the service consults is given as a map from user id to the user's
    department. */
module Departments {
  import opened Common

  datatype Department = Department(
    id: nat,
    name: string,
    code: string,
    description: Option<string>,
    isActive: bool,
    parentId: Option<nat>,
    managerId: Option<nat>)

  datatype NewDepartment = NewDepartment(
    name: string,
    code: string,
    description: Option<string>,
    parentId: Option<nat>,
    managerId: Option<nat>,
    isActive: Option<bool>)

  /** The body of an update request: `Keep` is a field left out, `Clear` a
      field sent as null. */
  datatype DepartmentEdit = DepartmentEdit(
    name: Option<string>,
    code: Option<string>,
    description: Patch<string>,
    parentId: Patch<nat>,
    managerId: Patch<nat>,
    isActive: Option<bool>)

  datatype Error =
    | NotFound(id: nat)
    | CodeTaken(code: string)
    | ParentNotFound(parentId: nat)
    | ManagerNotFound(managerId: nat)
    | SelfParent
    | HierarchyLoop
    | HasUsers
    | HasChildren

  type Table = map<nat, Department>

  /** The next department up from `x`, or 0 when there is none. */
  function ParentOf(depts: Table, x: nat): nat {
    if x in depts && depts[x].parentId.Some? then depts[x].parentId.value else 0
  }

  /** The shape the service keeps: ids are the keys, start at 1 and stay
      below `nextId`; every parent reference names an existing department;
      and `rank` strictly grows from parent to child, so no walk up the
      hierarchy comes back to where it started. */
  ghost predicate Ranked(depts: Table, rank: map<nat, nat>, nextId: nat) {
    && nextId > 0
    && (forall x :: x in depts ==> 0 < x < nextId && depts[x].id == x && x in rank)
    && (forall x :: x in depts && ParentOf(depts, x) != 0 ==>
          ParentOf(depts, x) in depts && rank[ParentOf(depts, x)] < rank[x])
  }

  /** Walking up the parent chain from `x` passes through `t` (`x` itself
      included); the walk stops at 0 or at an id with no department. */
  ghost predicate Reaches(depts: Table, rank: map<nat, nat>, nextId: nat, x: nat, t: nat)
    requires Ranked(depts, rank, nextId)
    decreases if x in depts then rank[x] + 1 else 0
  {
    x != 0 && (x == t || (x in depts && Reaches(depts, rank, nextId, ParentOf(depts, x), t)))
  }

  /** A department sits strictly below everything its parent chain reaches. */
  lemma {:induction false} ReachesRankBelow(depts: Table, rank: map<nat, nat>, nextId: nat, x: nat, t: nat)
    requires Ranked(depts, rank, nextId)
    requires x in depts && t in depts && Reaches(depts, rank, nextId, x, t)
    ensures rank[t] <= rank[x]
    decreases rank[x]
  {
    if x != t {
      var p := ParentOf(depts, x);
      if p != 0 && p in depts {
        ReachesRankBelow(depts, rank, nextId, p, t);
      }
    }
  }

  /** No department is its own ancestor. */
  lemma NoSelfAncestor(depts: Table, rank: map<nat, nat>, nextId: nat, x: nat)
    requires Ranked(depts, rank, nextId) && x in depts
    ensures !Reaches(depts, rank, nextId, ParentOf(depts, x), x)
  {
    var p := ParentOf(depts, x);
    if p != 0 && Reaches(depts, rank, nextId, p, x) {
      ReachesRankBelow(depts, rank, nextId, p, x);
    }
  }

  /** Ranks after hanging the subtree under `id` below a new parent: every
      department whose chain passes through `id` moves down by `k`. */
  ghost function Shifted(depts: Table, rank: map<nat, nat>, nextId: nat, id: nat, k: nat): (r: map<nat, nat>)
    requires Ranked(depts, rank, nextId)
    ensures r.Keys == rank.Keys
  {
    map x | x in rank :: if Reaches(depts, rank, nextId, x, id) then rank[x] + k else rank[x]
  }

  /** Giving department `id` a new parent that does not lie below it keeps
      the hierarchy free of loops. */
  lemma ReparentKeepsRanked(depts: Table, rank: map<nat, nat>, nextId: nat, id: nat, np: nat, d: Department)
    requires Ranked(depts, rank, nextId)
    requires id in depts && np in depts && np != id
    requires !Reaches(depts, rank, nextId, np, id)
    requires d.id == id && d.parentId == Some(np)
    ensures Ranked(depts[id := d], Shifted(depts, rank, nextId, id, rank[np] + 1), nextId)
  {
    var k := rank[np] + 1;
    var rank' := Shifted(depts, rank, nextId, id, k);
    var depts' := depts[id := d];
    assert Reaches(depts, rank, nextId, id, id);
    forall x | x in depts' && ParentOf(depts', x) != 0
      ensures ParentOf(depts', x) in depts' && rank'[ParentOf(depts', x)] < rank'[x]
    {
      var p := ParentOf(depts', x);
      if x != id {
        assert p == ParentOf(depts, x);
        if Reaches(depts, rank, nextId, p, id) {
          assert Reaches(depts, rank, nextId, x, id);
        }
      }
    }
  }

  /** Moving a department to the top, or rewriting it with the same parent,
      keeps the ranks valid. */
  lemma RewriteKeepsRanked(depts: Table, rank: map<nat, nat>, nextId: nat, id: nat, d: Department)
    requires Ranked(depts, rank, nextId) && id in depts && d.id == id
    requires ParentOf(depts[id := d], id) == 0 || ParentOf(depts[id := d], id) == ParentOf(depts, id)
    ensures Ranked(depts[id := d], rank, nextId)
  {
    var depts' := depts[id := d];
    forall x | x in depts' && ParentOf(depts', x) != 0
      ensures ParentOf(depts', x) in depts' && rank[ParentOf(depts', x)] < rank[x]
    {
      if x != id {
        assert ParentOf(depts', x) == ParentOf(depts, x);
      }
    }
  }

  /** Adding a department under the next id, below an existing parent or
      none, keeps the ranks valid once it ranks just below its parent. */
  lemma FoundKeepsRanked(depts: Table, rank: map<nat, nat>, nextId: nat, d: Department)
    requires Ranked(depts, rank, nextId) && d.id == nextId
    requires var p := ParentOf(depts[nextId := d], nextId); p == 0 || p in depts
    ensures var p := ParentOf(depts[nextId := d], nextId);
      Ranked(depts[nextId := d], rank[nextId := if p == 0 then 0 else rank[p] + 1], nextId + 1)
  {
    var depts' := depts[nextId := d];
    forall x | x in depts' && x != nextId ensures ParentOf(depts', x) == ParentOf(depts, x) {
    }
  }

  /** Some department other than `except` holds `code`. */
  predicate CodeHeld(depts: Table, code: string, except: Option<nat>) {
    exists k :: k in depts && depts[k].code == code && Some(k) != except
  }

  /** The row `create` inserts: omitted fields become null and the
      department starts active. */
  function Founded(id: nat, dto: NewDepartment): (d: Department)
    ensures d.id == id && d.name == dto.name && d.code == dto.code
    ensures d.isActive == dto.isActive.GetOr(true)
    ensures d.description == dto.description && d.parentId == dto.parentId && d.managerId == dto.managerId
  {
    Department(id, dto.name, dto.code, dto.description, dto.isActive.GetOr(true), dto.parentId, dto.managerId)
  }

  /** The row after `update`: given fields replace stored ones, `Clear`
      empties a field, and left-out fields stay. */
  function Revised(d: Department, dto: DepartmentEdit): (r: Department)
    ensures r.id == d.id
    ensures dto.parentId.Keep? ==> r.parentId == d.parentId
    ensures dto.parentId.Clear? ==> r.parentId.None?
    ensures dto.parentId.Set? ==> r.parentId == Some(dto.parentId.value)
    ensures dto.code.None? ==> r.code == d.code
    ensures dto.code.Some? ==> r.code == dto.code.value
    ensures dto.managerId.Keep? ==> r.managerId == d.managerId
    ensures dto.managerId.Clear? ==> r.managerId.None?
    ensures dto.managerId.Set? ==> r.managerId == Some(dto.managerId.value)
    ensures dto.description.Keep? ==> r.description == d.description
    ensures dto.description.Clear? ==> r.description.None?
    ensures dto.description.Set? ==> r.description == Some(dto.description.value)
    ensures r.name == dto.name.GetOr(d.name) && r.isActive == dto.isActive.GetOr(d.isActive)
  {
    d.(name := dto.name.GetOr(d.name),
       code := dto.code.GetOr(d.code),
       description := dto.description.Apply(d.description),
       isActive := dto.isActive.GetOr(d.isActive),
       parentId := dto.parentId.Apply(d.parentId),
       managerId := dto.managerId.Apply(d.managerId))
  }

  /** A JavaScript id that counts as given: present and not 0. */
  predicate Given(x: Option<nat>) {
    x.Some? && x.value != 0
  }

  class Directory {
    var depts: Table
    var nextId: nat
    ghost var rank: map<nat, nat>

    ghost predicate Valid()
      reads this
    {
      Ranked(depts, rank, nextId)
    }

    constructor ()
      ensures Valid() && depts == map[] && nextId == 1
    {
      depts := map[];
      nextId := 1;
      rank := map[];
    }

    /** `ensureNoHierarchyLoop`: refuses a department as its own parent,
        then walks up from the proposed parent and refuses when the walk
        meets the department. */
    method EnsureNoHierarchyLoop(deptId: nat, newParentId: nat) returns (r: Option<Error>)
      requires Valid()
      ensures deptId == newParentId ==> r == Some(SelfParent)
      ensures deptId != newParentId ==>
        (r == Some(HierarchyLoop) <==> Reaches(depts, rank, nextId, newParentId, deptId))
      ensures r.None? <==> deptId != newParentId && !Reaches(depts, rank, nextId, newParentId, deptId)
    {
      if deptId == newParentId {
        return Some(SelfParent);
      }
      var current := newParentId;
      while current != 0
        invariant Reaches(depts, rank, nextId, newParentId, deptId) <==> Reaches(depts, rank, nextId, current, deptId)
        decreases if current == 0 then 0 else if current in depts then rank[current] + 2 else 1
      {
        if current == deptId {
          return Some(HierarchyLoop);
        }
        current := ParentOf(depts, current);
      }
      r := None;
    }

    /** `create`: refuses a code in use, a given parent that does not exist
        and a given manager who is not a user; otherwise inserts the
        `Founded` row under the next id. */
    method Create(dto: NewDepartment, users: map<nat, Option<nat>>) returns (r: Result<Department, Error>)
      requires Valid()
      modifies this
      ensures Valid()
      ensures CodeHeld(old(depts), dto.code, None) ==> r == Err(CodeTaken(dto.code)) && depts == old(depts)
      ensures !CodeHeld(old(depts), dto.code, None) && Given(dto.parentId) && dto.parentId.value !in old(depts) ==>
        r == Err(ParentNotFound(dto.parentId.value)) && depts == old(depts)
      ensures && !CodeHeld(old(depts), dto.code, None)
              && (Given(dto.parentId) ==> dto.parentId.value in old(depts))
              && Given(dto.managerId) && dto.managerId.value !in users ==>
        r == Err(ManagerNotFound(dto.managerId.value))
      ensures r.Ok? <==>
        && !CodeHeld(old(depts), dto.code, None)
        && (Given(dto.parentId) ==> dto.parentId.value in old(depts))
        && (Given(dto.managerId) ==> dto.managerId.value in users)
      ensures r.Ok? ==> r.value == Founded(old(nextId), dto) && depts == old(depts)[old(nextId) := r.value]
      ensures r.Err? ==> depts == old(depts)
    {
      if exists k :: k in depts && depts[k].code == dto.code {
        return Err(CodeTaken(dto.code));
      }
      if Given(dto.parentId) && dto.parentId.value !in depts {
        return Err(ParentNotFound(dto.parentId.value));
      }
      if Given(dto.managerId) && dto.managerId.value !in users {
        return Err(ManagerNotFound(dto.managerId.value));
      }
      var d := Founded(nextId, dto);
      FoundKeepsRanked(depts, rank, nextId, d);
      var p := ParentOf(depts[nextId := d], nextId);
      rank := rank[nextId := if p == 0 then 0 else rank[p] + 1];
      depts := depts[nextId := d];
      nextId := nextId + 1;
      r := Ok(d);
    }

    /** What `update` demands before it writes: the department exists, a
        non-empty new code is held by no other department, a new parent
        exists and does not lie below the department, and a new manager is
        a user. */
    ghost predicate Admits(id: nat, dto: DepartmentEdit, users: map<nat, Option<nat>>)
      reads this
      requires Valid()
    {
      && id in depts
      && !(dto.code.Some? && dto.code.value != "" && CodeHeld(depts, dto.code.value, Some(id)))
      && (dto.parentId.Set? ==>
            && dto.parentId.value in depts
            && dto.parentId.value != id
            && !Reaches(depts, rank, nextId, dto.parentId.value, id))
      && (dto.managerId.Set? ==> dto.managerId.value in users)
    }

    /** The department exists and a non-empty new code is held by no
        other department: the first two checks of `update` pass. */
    ghost predicate PassesCodeCheck(id: nat, dto: DepartmentEdit)
      reads this
    {
      id in depts && !(dto.code.Some? && dto.code.value != "" && CodeHeld(depts, dto.code.value, Some(id)))
    }

    /** The refusal `update` answers with, if any: its checks in the
        service's order (existence, code, parent existence, self-parent,
        loop, manager), the first that fails deciding the error. */
    ghost function UpdateRefusal(id: nat, dto: DepartmentEdit, users: map<nat, Option<nat>>): (r: Option<Error>)
      reads this
      requires Valid()
      ensures r.None? <==> Admits(id, dto, users)
      ensures id !in depts ==> r == Some(NotFound(id))
      ensures id in depts && dto.code.Some? && dto.code.value != "" && CodeHeld(depts, dto.code.value, Some(id)) ==>
        r == Some(CodeTaken(dto.code.value))
      ensures PassesCodeCheck(id, dto) && dto.parentId.Set? && dto.parentId.value !in depts ==>
        r == Some(ParentNotFound(dto.parentId.value))
      ensures PassesCodeCheck(id, dto) && dto.parentId.Set? && dto.parentId.value == id ==>
        r == Some(SelfParent)
      ensures PassesCodeCheck(id, dto) && dto.parentId.Set? && dto.parentId.value in depts && dto.parentId.value != id ==>
        (r == Some(HierarchyLoop) <==> Reaches(depts, rank, nextId, dto.parentId.value, id))
      ensures && PassesCodeCheck(id, dto)
              && (dto.parentId.Set? ==>
                    && dto.parentId.value in depts
                    && dto.parentId.value != id
                    && !Reaches(depts, rank, nextId, dto.parentId.value, id))
              && dto.managerId.Set? && dto.managerId.value !in users ==>
        r == Some(ManagerNotFound(dto.managerId.value))
    {
      if id !in depts then Some(NotFound(id))
      else if dto.code.Some? && dto.code.value != "" && CodeHeld(depts, dto.code.value, Some(id)) then
        Some(CodeTaken(dto.code.value))
      else if dto.parentId.Set? && dto.parentId.value !in depts then Some(ParentNotFound(dto.parentId.value))
      else if dto.parentId.Set? && dto.parentId.value == id then Some(SelfParent)
      else if dto.parentId.Set? && Reaches(depts, rank, nextId, dto.parentId.value, id) then Some(HierarchyLoop)
      else if dto.managerId.Set? && dto.managerId.value !in users then Some(ManagerNotFound(dto.managerId.value))
      else None
    }

    /** The checks of `update`, in the service's order. */
    method CheckUpdate(id: nat, dto: DepartmentEdit, users: map<nat, Option<nat>>) returns (r: Option<Error>)
      requires Valid()
      ensures r == UpdateRefusal(id, dto, users)
      ensures r.None? <==> Admits(id, dto, users)
      ensures id !in depts ==> r == Some(NotFound(id))
      ensures id in depts && dto.code.Some? && dto.code.value != "" && CodeHeld(depts, dto.code.value, Some(id)) ==>
        r == Some(CodeTaken(dto.code.value))
      ensures r == Some(HierarchyLoop) ==> dto.parentId.Set? && Reaches(depts, rank, nextId, dto.parentId.value, id)
    {
      if id !in depts {
        return Some(NotFound(id));
      }
      if dto.code.Some? && dto.code.value != "" {
        if exists k :: k in depts && depts[k].code == dto.code.value && Some(k) != Some(id) {
          return Some(CodeTaken(dto.code.value));
        }
      }
      if dto.parentId.Set? {
        if dto.parentId.value !in depts {
          return Some(ParentNotFound(dto.parentId.value));
        }
        r := EnsureNoHierarchyLoop(id, dto.parentId.value);
        if r.Some? {
          return;
        }
      }
      if dto.managerId.Set? && dto.managerId.value !in users {
        return Some(ManagerNotFound(dto.managerId.value));
      }
      r := None;
    }

    /** `update`: when `CheckUpdate` passes, rewrites the row as `Revised`;
        otherwise leaves the table alone. */
    method Update(id: nat, dto: DepartmentEdit, users: map<nat, Option<nat>>) returns (r: Result<Department, Error>)
      requires Valid()
      modifies this
      ensures Valid() && nextId == old(nextId)
      ensures r.Ok? <==> old(Admits(id, dto, users))
      ensures r.Err? ==> Some(r.error) == old(UpdateRefusal(id, dto, users))
      ensures r.Ok? ==> r.value == Revised(old(depts)[id], dto) && depts == old(depts)[id := r.value]
      ensures r.Err? ==> depts == old(depts)
    {
      var refusal := CheckUpdate(id, dto, users);
      if refusal.Some? {
        return Err(refusal.value);
      }
      var d := Revised(depts[id], dto);
      if dto.parentId.Set? {
        ReparentKeepsRanked(depts, rank, nextId, id, dto.parentId.value, d);
        rank := Shifted(depts, rank, nextId, id, rank[dto.parentId.value] + 1);
      } else {
        RewriteKeepsRanked(depts, rank, nextId, id, d);
      }
      depts := depts[id := d];
      r := Ok(d);
    }

    /** `remove`: refused while a user belongs to the department or a
        department hangs below it (checked before the department's own
        existence); otherwise deletes exactly that row. */
    method Remove(id: nat, users: map<nat, Option<nat>>) returns (r: Result<(), Error>)
      requires Valid()
      modifies this
      ensures Valid() && nextId == old(nextId)
      ensures (exists u :: u in users && users[u] == Some(id)) ==> r == Err(HasUsers) && depts == old(depts)
      ensures r.Ok? <==>
        && (forall u :: u in users ==> users[u] != Some(id))
        && (forall k :: k in old(depts) ==> old(depts)[k].parentId != Some(id))
        && id in old(depts)
      ensures (forall u :: u in users ==> users[u] != Some(id))
              && (exists k :: k in old(depts) && old(depts)[k].parentId == Some(id)) ==>
        r == Err(HasChildren)
      ensures (forall u :: u in users ==> users[u] != Some(id))
              && (forall k :: k in old(depts) ==> old(depts)[k].parentId != Some(id))
              && id !in old(depts) ==>
        r == Err(NotFound(id))
      ensures r.Ok? ==> depts == old(depts) - {id}
      ensures r.Err? ==> depts == old(depts)
    {
      if exists u :: u in users && users[u] == Some(id) {
        return Err(HasUsers);
      }
      if exists k :: k in depts && depts[k].parentId == Some(id) {
        return Err(HasChildren);
      }
      if id !in depts {
        return Err(NotFound(id));
      }
      depts := depts - {id};
      r := Ok(());
    }
  }
}

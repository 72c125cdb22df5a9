/** The leave-type registry (`hrLeaveType`): configuration rows with a unique
    code, created with documented defaults, switched on and off, and never
    deleted (removal only deactivates). */
module LeaveTypes {
  import opened Common
  import opened Query
  import Text

  datatype LeaveType = LeaveType(
    id: nat,
    leaveTypeName: string,
    leaveTypeCode: string,
    description: Option<string>,
    annualEntitlement: real,
    maxConsecutiveDays: real,
    requiresApproval: bool,
    requiresAttachment: bool,
    isPaid: bool,
    affectsSalary: bool,
    isCarryoverAllowed: bool,
    maxCarryoverDays: real,
    isActive: bool)

  /** The body of a create request; `None` is a field the caller left out. */
  datatype NewLeaveType = NewLeaveType(
    leaveTypeName: string,
    leaveTypeCode: string,
    description: Option<string>,
    annualEntitlement: real,
    maxConsecutiveDays: Option<real>,
    requiresApproval: Option<bool>,
    requiresAttachment: Option<bool>,
    isPaid: Option<bool>,
    affectsSalary: Option<bool>,
    isCarryoverAllowed: Option<bool>,
    maxCarryoverDays: Option<real>,
    isActive: Option<bool>)

  datatype Error = NotFound(id: nat) | CodeTaken(code: string)

  /** The row `create` inserts under a fresh `id`: every given field is kept
      and every omitted one takes its default. */
  function FromRequest(id: nat, dto: NewLeaveType): (t: LeaveType)
    ensures t.id == id && t.leaveTypeCode == dto.leaveTypeCode
    ensures t.leaveTypeName == dto.leaveTypeName && t.annualEntitlement == dto.annualEntitlement
    ensures t.description == dto.description
    ensures t.requiresApproval == dto.requiresApproval.GetOr(true)
    ensures t.requiresAttachment == dto.requiresAttachment.GetOr(false)
    ensures t.isPaid == dto.isPaid.GetOr(true)
    ensures t.affectsSalary == dto.affectsSalary.GetOr(false)
    ensures t.isCarryoverAllowed == dto.isCarryoverAllowed.GetOr(false)
    ensures t.maxCarryoverDays == dto.maxCarryoverDays.GetOr(0.0)
    ensures t.maxConsecutiveDays == dto.maxConsecutiveDays.GetOr(0.0)
    ensures t.isActive == dto.isActive.GetOr(true)
  {
    LeaveType(
      id, dto.leaveTypeName, dto.leaveTypeCode, dto.description, dto.annualEntitlement,
      dto.maxConsecutiveDays.GetOr(0.0),
      dto.requiresApproval.GetOr(true),
      dto.requiresAttachment.GetOr(false),
      dto.isPaid.GetOr(true),
      dto.affectsSalary.GetOr(false),
      dto.isCarryoverAllowed.GetOr(false),
      dto.maxCarryoverDays.GetOr(0.0),
      dto.isActive.GetOr(true))
  }

  /** `orderBy: { leaveTypeName: 'asc' }`. */
  predicate ByName(a: LeaveType, b: LeaveType) {
    Text.LexLe(a.leaveTypeName, b.leaveTypeName)
  }

  lemma ByNameIsTotalPreorder()
    ensures TotalPreorder(ByName)
  {
    forall a: LeaveType, b: LeaveType ensures ByName(a, b) || ByName(b, a) {
      Text.LexLeTotal(a.leaveTypeName, b.leaveTypeName);
    }
    forall a: LeaveType, b: LeaveType, c: LeaveType | ByName(a, b) && ByName(b, c)
      ensures ByName(a, c)
    {
      Text.LexLeTransitive(a.leaveTypeName, b.leaveTypeName, c.leaveTypeName);
    }
  }

  /** The `where` of `findAll(isActive?)`: no filter when the flag is absent. */
  predicate MatchesFlag(flag: Option<bool>, t: LeaveType) {
    flag.None? || t.isActive == flag.value
  }

  class Registry {
    var types: seq<LeaveType>
    var nextId: nat

    ghost predicate Valid()
      reads this
    {
      && nextId > 0
      && (forall i :: 0 <= i < |types| ==> 0 < types[i].id < nextId)
      && (forall i, j :: 0 <= i < j < |types| ==> types[i].id != types[j].id)
      && (forall i, j :: 0 <= i < j < |types| ==> types[i].leaveTypeCode != types[j].leaveTypeCode)
    }

    constructor ()
      ensures Valid() && types == [] && nextId == 1
    {
      types := [];
      nextId := 1;
    }

    /** Position of the row with this `id`. */
    function IndexOf(id: nat): Option<nat>
      reads this
    {
      FindFirst(types, (t: LeaveType) => t.id == id)
    }

    /** `findOne`: the row with this `id`, or NotFound. */
    function FindOne(id: nat): (r: Result<LeaveType, Error>)
      reads this
      ensures r.Err? <==> forall i :: 0 <= i < |types| ==> types[i].id != id
      ensures r.Err? ==> r.error == NotFound(id)
      ensures r.Ok? ==> r.value in types && r.value.id == id
    {
      match IndexOf(id)
      case None => Err(NotFound(id))
      case Some(i) => Ok(types[i])
    }

    /** `findAll(isActive?)`: exactly the rows matching the flag, by name. */
    function FindAll(flag: Option<bool>): (r: seq<LeaveType>)
      reads this
      ensures SortedBy(r, ByName)
      ensures forall t :: t in r <==> t in types && MatchesFlag(flag, t)
      ensures multiset(r) == multiset(Where(types, (t: LeaveType) => MatchesFlag(flag, t)))
    {
      ByNameIsTotalPreorder();
      var matching := Where(types, (t: LeaveType) => MatchesFlag(flag, t));
      var r := OrderBy(matching, ByName);
      assert forall t :: t in r <==> t in matching by {
        forall t ensures t in r <==> t in matching {
          assert t in r <==> t in multiset(r);
          assert t in matching <==> t in multiset(matching);
        }
      }
      r
    }

    /** `create`: refuses a code already in use; otherwise appends the row
        built by `FromRequest` under the next id. */
    method Create(dto: NewLeaveType) returns (r: Result<LeaveType, Error>)
      requires Valid()
      modifies this
      ensures Valid()
      ensures (exists i :: 0 <= i < |old(types)| && old(types)[i].leaveTypeCode == dto.leaveTypeCode) ==>
        r == Err(CodeTaken(dto.leaveTypeCode)) && types == old(types) && nextId == old(nextId)
      ensures (forall i :: 0 <= i < |old(types)| ==> old(types)[i].leaveTypeCode != dto.leaveTypeCode) ==>
        r == Ok(FromRequest(old(nextId), dto)) && types == old(types) + [r.value]
    {
      var existing := FindFirst(types, (t: LeaveType) => t.leaveTypeCode == dto.leaveTypeCode);
      if existing.Some? {
        return Err(CodeTaken(dto.leaveTypeCode));
      }
      var t := FromRequest(nextId, dto);
      types := types + [t];
      nextId := nextId + 1;
      r := Ok(t);
    }

    /** `toggleActive`: negates `isActive` of one row and changes nothing else. */
    method ToggleActive(id: nat) returns (r: Result<LeaveType, Error>)
      requires Valid()
      modifies this
      ensures Valid() && nextId == old(nextId)
      ensures old(IndexOf(id)).None? ==> r == Err(NotFound(id)) && types == old(types)
      ensures old(IndexOf(id)).Some? ==>
        var i := old(IndexOf(id)).value;
        && types == old(types)[i := old(types)[i].(isActive := !old(types)[i].isActive)]
        && r == Ok(types[i])
    {
      var found := IndexOf(id);
      if found.None? {
        return Err(NotFound(id));
      }
      var i := found.value;
      types := types[i := types[i].(isActive := !types[i].isActive)];
      r := Ok(types[i]);
    }

    /** `remove`: a soft delete; the row stays, with `isActive` false. */
    method Remove(id: nat) returns (r: Result<LeaveType, Error>)
      requires Valid()
      modifies this
      ensures Valid() && nextId == old(nextId) && |types| == |old(types)|
      ensures old(IndexOf(id)).None? ==> r == Err(NotFound(id)) && types == old(types)
      ensures old(IndexOf(id)).Some? ==>
        var i := old(IndexOf(id)).value;
        && types == old(types)[i := old(types)[i].(isActive := false)]
        && r == Ok(types[i])
        && (!old(types)[i].isActive ==> types == old(types))
    {
      var found := IndexOf(id);
      if found.None? {
        return Err(NotFound(id));
      }
      var i := found.value;
      types := types[i := types[i].(isActive := false)];
      r := Ok(types[i]);
    }
  }

  /** Toggling the same leave type twice puts the registry back as it was. */
  method ToggleTwice(registry: Registry, id: nat)
    requires registry.Valid()
    modifies registry
    ensures registry.Valid() && registry.types == old(registry.types)
  {
    var first := registry.ToggleActive(id);
    var second := registry.ToggleActive(id);
  }
}

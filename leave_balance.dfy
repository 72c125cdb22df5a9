/** The leave-balance ledger (`hrLeaveBalance` plus `hrLeaveBalanceHistory`):
    one row per (user, leave type, year) holding the entitlement, the days
    used, the days carried over and the days remaining, and an append-only
    history of manual entitlement adjustments.

    The current year is a parameter (the service reads it from the clock). */
module LeaveBalance {
  import opened Common
  import opened Query
  import LeaveTypes

  /** The natural key of a balance row. */
  datatype Key = Key(userId: nat, leaveTypeId: nat, year: int)

  datatype Balance = Balance(
    id: nat,
    userId: nat,
    leaveTypeId: nat,
    year: int,
    totalEntitlement: real,
    usedBalance: real,
    carriedOver: real,
    remainingBalance: real)
  {
    function KeyOf(): Key {
      Key(userId, leaveTypeId, year)
    }

    /** The bookkeeping identity the service maintains on create, deduct
        and restore (but not on adjust). */
    predicate Consistent() {
      remainingBalance == totalEntitlement - usedBalance
    }
  }

  datatype HistoryEntry = HistoryEntry(
    balanceId: nat,
    changedById: nat,
    changeReason: string,
    delta: real,
    before: real,
    after: real,
    notes: Option<string>)

  datatype Error =
    | NotFound(id: nat)
    | NoBalance(key: Key)
    | AlreadyExists(year: int)
    | NegativeEntitlement
    | Insufficient(available: real, requested: real)

  /** No two rows share a (user, leave type, year) key. */
  predicate UniqueKeys(rows: seq<Balance>) {
    forall i, j :: 0 <= i < j < |rows| ==> rows[i].KeyOf() != rows[j].KeyOf()
  }

  /** `findFirst({ where: { userId, leaveTypeId, year } })`: the position
      of the first row with key `k`. */
  function Lookup(rows: seq<Balance>, k: Key): (r: Option<nat>)
    ensures r.Some? ==> r.value < |rows| && rows[r.value].KeyOf() == k
    ensures r.Some? ==> forall j :: 0 <= j < r.value ==> rows[j].KeyOf() != k
    ensures r.None? <==> forall j :: 0 <= j < |rows| ==> rows[j].KeyOf() != k
  {
    if rows == [] then None
    else if rows[0].KeyOf() == k then Some(0)
    else match Lookup(rows[1..], k)
      case None => None
      case Some(i) => Some(i + 1)
  }

  /** A key is absent from a concatenation exactly when it is absent from
      both parts. */
  lemma LookupConcat(a: seq<Balance>, b: seq<Balance>, k: Key)
    ensures Lookup(a + b, k).None? <==> Lookup(a, k).None? && Lookup(b, k).None?
  {
    if Lookup(a, k).Some? {
      var i := Lookup(a, k).value;
      assert (a + b)[i] == a[i];
    }
    if Lookup(b, k).Some? {
      var i := Lookup(b, k).value;
      assert (a + b)[|a| + i] == b[i];
    }
    if Lookup(a, k).None? && Lookup(b, k).None? {
      forall j | 0 <= j < |a + b| ensures (a + b)[j].KeyOf() != k {
        if j < |a| {
          assert (a + b)[j] == a[j];
        } else {
          assert (a + b)[j] == b[j - |a|];
        }
      }
    }
  }

  /** The `meta` of a history entry: the notes when given and non-empty. */
  function NotesMeta(notes: Option<string>): (m: Option<string>)
    ensures m.Some? <==> notes.Some? && notes.value != ""
    ensures m.Some? ==> m == notes
  {
    if notes.Some? && notes.value != "" then notes else None
  }

  /** The row `create` inserts: the carry-over is added to the base
      entitlement and remaining is what is left after the days used; `used`
      and the carry-over default to 0. */
  function Opened(id: nat, k: Key, base: real, used: Option<real>, carried: Option<real>): (b: Balance)
    ensures b.id == id && b.KeyOf() == k
    ensures b.usedBalance == used.GetOr(0.0) && b.carriedOver == carried.GetOr(0.0)
    ensures b.totalEntitlement == base + b.carriedOver
    ensures b.Consistent()
  {
    var carriedOver := carried.GetOr(0.0);
    var total := base + carriedOver;
    var usedBalance := used.GetOr(0.0);
    Balance(id, k.userId, k.leaveTypeId, k.year, total, usedBalance, carriedOver, total - usedBalance)
  }

  /** The row `initializeUserBalances` opens for an active leave type. */
  function Initial(id: nat, userId: nat, year: int, t: LeaveTypes.LeaveType): (b: Balance)
    ensures b.id == id && b.KeyOf() == Key(userId, t.id, year)
    ensures b.usedBalance == 0.0 && b.carriedOver == 0.0
    ensures b.totalEntitlement == t.annualEntitlement == b.remainingBalance
  {
    Balance(id, userId, t.id, year, t.annualEntitlement, 0.0, 0.0, t.annualEntitlement)
  }

  /** The row after `deductBalance(days)`: used grows by `days`, remaining is
      recomputed from the total, and nothing else moves. */
  function Deducted(b: Balance, days: real): (r: Balance)
    ensures r.usedBalance == b.usedBalance + days
    ensures r.Consistent()
    ensures r.id == b.id && r.KeyOf() == b.KeyOf()
    ensures r.totalEntitlement == b.totalEntitlement && r.carriedOver == b.carriedOver
    ensures b.Consistent() ==> r.remainingBalance == b.remainingBalance - days
  {
    var newUsed := b.usedBalance + days;
    b.(usedBalance := newUsed, remainingBalance := b.totalEntitlement - newUsed)
  }

  /** The row after `restoreBalance(days)`: used shrinks by `days` but never
      below 0, and remaining is recomputed from the total. */
  function Restored(b: Balance, days: real): (r: Balance)
    ensures r.usedBalance >= 0.0
    ensures r.usedBalance == if b.usedBalance - days > 0.0 then b.usedBalance - days else 0.0
    ensures r.Consistent()
    ensures r.id == b.id && r.KeyOf() == b.KeyOf()
    ensures r.totalEntitlement == b.totalEntitlement && r.carriedOver == b.carriedOver
  {
    var newUsed := if 0.0 > b.usedBalance - days then 0.0 else b.usedBalance - days;
    b.(usedBalance := newUsed, remainingBalance := b.totalEntitlement - newUsed)
  }

  /** The row after a successful `adjustBalance(delta)`: only the total
      moves; used and remaining are left as they were. */
  function Adjusted(b: Balance, delta: real): (r: Balance)
    ensures r.totalEntitlement == b.totalEntitlement + delta
    ensures r.usedBalance == b.usedBalance && r.remainingBalance == b.remainingBalance
    ensures r.id == b.id && r.KeyOf() == b.KeyOf() && r.carriedOver == b.carriedOver
  {
    b.(totalEntitlement := b.totalEntitlement + delta)
  }

  /** Restoring what was just deducted gives the days used back, and the
      whole row back when it was consistent. */
  lemma DeductThenRestore(b: Balance, days: real)
    requires days >= 0.0 && b.usedBalance >= 0.0
    ensures Restored(Deducted(b, days), days).usedBalance == b.usedBalance
    ensures b.Consistent() ==> Restored(Deducted(b, days), days) == b
  {
  }

  /** An adjustment by a non-zero delta turns a consistent row into an
      inconsistent one: remaining no longer equals total minus used. */
  lemma AdjustBreaksConsistency(b: Balance, delta: real)
    requires b.Consistent() && delta != 0.0
    ensures !Adjusted(b, delta).Consistent()
  {
  }

  /** What `deductBalance` does on a table: the index of the row it updates,
      or the reason it throws. */
  function DeductOutcome(rows: seq<Balance>, k: Key, days: real): (r: Result<nat, Error>)
    ensures r.Ok? ==> r.value < |rows| && rows[r.value].KeyOf() == k && rows[r.value].remainingBalance >= days
    ensures r == Err(NoBalance(k)) <==> forall i :: 0 <= i < |rows| ==> rows[i].KeyOf() != k
    ensures r.Err? && r.error.Insufficient? ==>
      exists i :: 0 <= i < |rows| && rows[i].KeyOf() == k && rows[i].remainingBalance < days
    ensures r.Err? && r != Err(NoBalance(k)) ==>
      exists i :: 0 <= i < |rows| && rows[i].KeyOf() == k && rows[i].remainingBalance < days
        && r == Err(Insufficient(rows[i].remainingBalance, days))
  {
    match Lookup(rows, k)
    case None => Err(NoBalance(k))
    case Some(i) =>
      if rows[i].remainingBalance < days then Err(Insufficient(rows[i].remainingBalance, days))
      else Ok(i)
  }

  /** The answer of `checkBalance`: a row for the key exists and covers the
      requested days. It is exactly the condition under which
      `deductBalance` succeeds on the same table. */
  function Sufficient(rows: seq<Balance>, k: Key, days: real): (ok: bool)
    ensures ok <==> DeductOutcome(rows, k, days).Ok?
  {
    match Lookup(rows, k)
    case None => false
    case Some(i) => rows[i].remainingBalance >= days
  }

  /** With unique keys, the check reads as "the row for this key holds at
      least `days`". */
  lemma {:induction false} SufficientIffRowCovers(rows: seq<Balance>, k: Key, days: real)
    requires UniqueKeys(rows)
    ensures Sufficient(rows, k, days) <==>
      exists i :: 0 <= i < |rows| && rows[i].KeyOf() == k && rows[i].remainingBalance >= days
  {
    if i :| 0 <= i < |rows| && rows[i].KeyOf() == k && rows[i].remainingBalance >= days {
      var f := Lookup(rows, k);
      assert f.Some?;
      assert f.value == i;
    }
  }

  /** The history entries of one balance, in the order they were written. */
  function EntriesOf(history: seq<HistoryEntry>, balanceId: nat): (r: seq<HistoryEntry>)
    ensures forall i :: 0 <= i < |r| ==> r[i].balanceId == balanceId && r[i] in history
    ensures forall k :: 0 <= k < |history| && history[k].balanceId == balanceId ==> history[k] in r
  {
    Where(history, (e: HistoryEntry) => e.balanceId == balanceId)
  }

  /** A history list filtered to one balance, newest first (`orderBy:
      { createdAt: 'desc' }` with entries appended in creation order):
      every entry of the balance and no other, the latest one first. */
  function NewestFirst(history: seq<HistoryEntry>, balanceId: nat): (r: seq<HistoryEntry>)
    ensures forall i :: 0 <= i < |r| ==> r[i].balanceId == balanceId && r[i] in history
    ensures forall k :: 0 <= k < |history| && history[k].balanceId == balanceId ==> history[k] in r
    ensures |r| == |EntriesOf(history, balanceId)|
    ensures forall i :: 0 <= i < |r| ==> r[i] == EntriesOf(history, balanceId)[|r| - 1 - i]
  {
    var mine := EntriesOf(history, balanceId);
    ReversedKeepsRows(mine);
    Reversed(mine)
  }

  /** The entry an adjustment appends is the first one its balance's
      history then lists, ahead of all the earlier ones. */
  lemma AppendedEntryComesFirst(history: seq<HistoryEntry>, e: HistoryEntry)
    ensures NewestFirst(history + [e], e.balanceId) == [e] + NewestFirst(history, e.balanceId)
  {
    var p := (x: HistoryEntry) => x.balanceId == e.balanceId;
    WhereAppend(history, e, p);
    ReversedSnoc(Where(history, p), e);
  }

  /** Every active leave type has a row for the user in the year. */
  predicate Covers(rows: seq<Balance>, userId: nat, year: int, types: seq<LeaveTypes.LeaveType>) {
    forall t :: t in types && t.isActive ==> Lookup(rows, Key(userId, t.id, year)).Some?
  }

  /** A row `initializeUserBalances` may have opened: the user's row for an
      active leave type in the year, at the full annual entitlement with
      nothing used or carried over. */
  ghost predicate OpenedFor(b: Balance, userId: nat, year: int, types: seq<LeaveTypes.LeaveType>) {
    exists t :: t in types && t.isActive && b == Initial(b.id, userId, year, t)
  }

  /** What the `initializeUserBalances` loop has established after its
      first `k` leave types: the table is the starting table plus the rows
      opened so far, each opened row is traced to the active type it was
      opened for and was missing at the start, and the first `k` active
      types are covered. */
  ghost predicate InitProgress(start: seq<Balance>, rows: seq<Balance>, created: seq<Balance>,
                               sources: seq<LeaveTypes.LeaveType>, active: seq<LeaveTypes.LeaveType>,
                               k: int, userId: nat, year: int)
  {
    && 0 <= k <= |active|
    && rows == start + created
    && |sources| == |created|
    && (forall j :: 0 <= j < k ==> Lookup(rows, Key(userId, active[j].id, year)).Some?)
    && (forall c :: 0 <= c < |created| ==>
          && sources[c] in active
          && created[c] == Initial(created[c].id, userId, year, sources[c])
          && Lookup(start, created[c].KeyOf()).None?)
  }

  /** One pass of the loop keeps its progress: the next active type is
      either already covered or gets its row appended. */
  lemma InitStep(start: seq<Balance>, before: seq<Balance>, created: seq<Balance>,
                 sources: seq<LeaveTypes.LeaveType>, active: seq<LeaveTypes.LeaveType>,
                 k: int, userId: nat, year: int, added: seq<Balance>, id: nat)
    requires InitProgress(start, before, created, sources, active, k, userId, year) && k < |active|
    requires Lookup(before, Key(userId, active[k].id, year)).Some? ==> added == []
    requires Lookup(before, Key(userId, active[k].id, year)).None? ==>
      added == [Initial(id, userId, year, active[k])]
    ensures InitProgress(start, before + added, created + added,
                         sources + (if added == [] then [] else [active[k]]), active, k + 1, userId, year)
  {
    var t := active[k];
    var key := Key(userId, t.id, year);
    var after := before + added;
    forall j | 0 <= j < k + 1 ensures Lookup(after, Key(userId, active[j].id, year)).Some? {
      LookupConcat(before, added, Key(userId, active[j].id, year));
    }
    if added != [] {
      LookupConcat(start, created, key);
      assert after == start + (created + added);
    } else {
      assert after == before && created + added == created;
    }
  }

  /** When the loop has passed every active type, every active type is
      covered, every opened row is one `initializeUserBalances` may open,
      and no row was opened if the starting table covered them all. */
  lemma InitDone(start: seq<Balance>, rows: seq<Balance>, created: seq<Balance>,
                 sources: seq<LeaveTypes.LeaveType>, types: seq<LeaveTypes.LeaveType>, userId: nat, year: int)
    requires InitProgress(start, rows, created, sources, Where(types, (t: LeaveTypes.LeaveType) => t.isActive),
                          |Where(types, (t: LeaveTypes.LeaveType) => t.isActive)|, userId, year)
    ensures Covers(rows, userId, year, types)
    ensures forall c :: 0 <= c < |created| ==>
      OpenedFor(created[c], userId, year, types) && Lookup(start, created[c].KeyOf()).None?
    ensures Covers(start, userId, year, types) ==> created == []
  {
    var active := Where(types, (t: LeaveTypes.LeaveType) => t.isActive);
    forall t | t in types && t.isActive ensures Lookup(rows, Key(userId, t.id, year)).Some? {
      assert t in active;
    }
    forall c | 0 <= c < |created| ensures OpenedFor(created[c], userId, year, types) {
      assert sources[c] in types && sources[c].isActive;
    }
    if created != [] {
      var t := sources[0];
      assert t in types && t.isActive;
      assert Lookup(start, Key(userId, t.id, year)).None?;
    }
  }

  /** Removing one row keeps ids below `nextId` and distinct, and keys
      distinct. */
  lemma DeleteKeepsKeys(rows: seq<Balance>, nextId: nat, i: nat)
    requires i < |rows| && UniqueKeys(rows)
    requires forall a :: 0 <= a < |rows| ==> 0 < rows[a].id < nextId
    requires forall a, b :: 0 <= a < b < |rows| ==> rows[a].id != rows[b].id
    ensures var r := rows[..i] + rows[i + 1..];
      && UniqueKeys(r)
      && (forall a :: 0 <= a < |r| ==> 0 < r[a].id < nextId)
      && (forall a, b :: 0 <= a < b < |r| ==> r[a].id != r[b].id)
  {
    var r := rows[..i] + rows[i + 1..];
    forall a | 0 <= a < |r| ensures r[a] == rows[if a < i then a else a + 1] {
    }
  }

  class Ledger {
    var rows: seq<Balance>
    var history: seq<HistoryEntry>
    var nextId: nat

    ghost predicate Valid()
      reads this
    {
      && nextId > 0
      && (forall i :: 0 <= i < |rows| ==> 0 < rows[i].id < nextId)
      && (forall i, j :: 0 <= i < j < |rows| ==> rows[i].id != rows[j].id)
      && UniqueKeys(rows)
    }

    constructor ()
      ensures Valid() && rows == [] && history == [] && nextId == 1
    {
      rows := [];
      history := [];
      nextId := 1;
    }

    /** Position of the row with this `id`. */
    function IndexOfId(id: nat): Option<nat>
      reads this
    {
      FindFirst(rows, (b: Balance) => b.id == id)
    }

    /** `findOne`: the row with this `id`, or NotFound. */
    function FindOne(id: nat): (r: Result<Balance, Error>)
      reads this
      ensures r.Err? <==> forall i :: 0 <= i < |rows| ==> rows[i].id != id
      ensures r.Err? ==> r.error == NotFound(id)
      ensures r.Ok? ==> r.value in rows && r.value.id == id
    {
      match IndexOfId(id)
      case None => Err(NotFound(id))
      case Some(i) => Ok(rows[i])
    }

    /** `create`: refuses a second row for the same user, leave type and
        current year; otherwise appends the `Opened` row under the next id. */
    method Create(userId: nat, leaveTypeId: nat, currentYear: int, base: real,
                  used: Option<real>, carried: Option<real>) returns (r: Result<Balance, Error>)
      requires Valid()
      modifies this
      ensures Valid() && history == old(history)
      ensures old(Lookup(rows, Key(userId, leaveTypeId, currentYear))).Some? ==>
        r == Err(AlreadyExists(currentYear)) && rows == old(rows) && nextId == old(nextId)
      ensures old(Lookup(rows, Key(userId, leaveTypeId, currentYear))).None? ==>
        && r == Ok(Opened(old(nextId), Key(userId, leaveTypeId, currentYear), base, used, carried))
        && rows == old(rows) + [r.value]
    {
      var k := Key(userId, leaveTypeId, currentYear);
      if Lookup(rows, k).Some? {
        return Err(AlreadyExists(currentYear));
      }
      var b := Opened(nextId, k, base, used, carried);
      rows := rows + [b];
      nextId := nextId + 1;
      r := Ok(b);
    }

    /** One pass of the `initializeUserBalances` loop: opens the user's row
        for leave type `t` in the year unless one is already there. */
    method OpenIfMissing(userId: nat, currentYear: int, t: LeaveTypes.LeaveType) returns (added: seq<Balance>)
      requires Valid()
      modifies this
      ensures Valid() && history == old(history)
      ensures rows == old(rows) + added
      ensures Lookup(old(rows), Key(userId, t.id, currentYear)).Some? ==> added == []
      ensures Lookup(old(rows), Key(userId, t.id, currentYear)).None? ==>
        added == [Initial(old(nextId), userId, currentYear, t)]
      ensures Lookup(rows, Key(userId, t.id, currentYear)).Some?
    {
      var key := Key(userId, t.id, currentYear);
      if Lookup(rows, key).Some? {
        return [];
      }
      var b := Initial(nextId, userId, currentYear, t);
      added := [b];
      LookupConcat(rows, added, key);
      rows := rows + added;
      nextId := nextId + 1;
    }

    /** `initializeUserBalances`: walks the active leave types and opens a
        row for each one the user lacks in the year. Rows already present are
        left as they are; afterwards every active type is covered, and a call
        on a table that already covers them creates nothing. */
    method InitializeUserBalances(userId: nat, currentYear: int, types: seq<LeaveTypes.LeaveType>)
      returns (created: seq<Balance>)
      requires Valid()
      modifies this
      ensures Valid() && history == old(history)
      ensures rows == old(rows) + created
      ensures Covers(rows, userId, currentYear, types)
      ensures forall c :: 0 <= c < |created| ==>
        OpenedFor(created[c], userId, currentYear, types) && Lookup(old(rows), created[c].KeyOf()).None?
      ensures Covers(old(rows), userId, currentYear, types) ==> created == []
    {
      var active := Where(types, (t: LeaveTypes.LeaveType) => t.isActive);
      created := [];
      ghost var sources: seq<LeaveTypes.LeaveType> := [];
      var k := 0;
      while k < |active|
        invariant Valid() && history == old(history)
        invariant InitProgress(old(rows), rows, created, sources, active, k, userId, currentYear)
      {
        ghost var before, id := rows, nextId;
        var added := OpenIfMissing(userId, currentYear, active[k]);
        InitStep(old(rows), before, created, sources, active, k, userId, currentYear, added, id);
        sources := sources + (if added == [] then [] else [active[k]]);
        created := created + added;
        k := k + 1;
      }
      InitDone(old(rows), rows, created, sources, types, userId, currentYear);
    }

    /** `adjustBalance`: refuses an unknown id and an adjustment that would
        make the total negative, changing nothing; otherwise moves only the
        total and appends exactly one history entry recording it. */
    method AdjustBalance(id: nat, adjustmentDays: real, reason: string, notes: Option<string>,
                         adjustedBy: nat) returns (r: Result<Balance, Error>)
      requires Valid()
      modifies this
      ensures Valid() && nextId == old(nextId)
      ensures old(IndexOfId(id)).None? ==>
        r == Err(NotFound(id)) && rows == old(rows) && history == old(history)
      ensures old(IndexOfId(id)).Some? ==>
        var i := old(IndexOfId(id)).value;
        var b := old(rows)[i];
        if b.totalEntitlement + adjustmentDays < 0.0 then
          r == Err(NegativeEntitlement) && rows == old(rows) && history == old(history)
        else
          && rows == old(rows)[i := Adjusted(b, adjustmentDays)]
          && r == Ok(rows[i])
          && history == old(history) + [HistoryEntry(id, adjustedBy, reason, adjustmentDays,
                                          b.totalEntitlement, b.totalEntitlement + adjustmentDays,
                                          NotesMeta(notes))]
    {
      var found := IndexOfId(id);
      if found.None? {
        return Err(NotFound(id));
      }
      var i := found.value;
      var balance := rows[i];
      var newTotal := balance.totalEntitlement + adjustmentDays;
      if newTotal < 0.0 {
        return Err(NegativeEntitlement);
      }
      rows := rows[i := Adjusted(balance, adjustmentDays)];
      history := history + [HistoryEntry(id, adjustedBy, reason, adjustmentDays,
                                         balance.totalEntitlement, newTotal, NotesMeta(notes))];
      r := Ok(rows[i]);
    }

    /** `deductBalance`: throws when the user has no row for the type in the
        year or when it holds fewer than `days`; otherwise charges the days
        to that one row and leaves every other row alone. */
    method DeductBalance(userId: nat, leaveTypeId: nat, days: real, currentYear: int)
      returns (r: Result<Balance, Error>)
      requires Valid()
      modifies this
      ensures Valid() && history == old(history) && nextId == old(nextId)
      ensures DeductOutcome(old(rows), Key(userId, leaveTypeId, currentYear), days).Err? ==>
        && r == Err(DeductOutcome(old(rows), Key(userId, leaveTypeId, currentYear), days).error)
        && rows == old(rows)
      ensures DeductOutcome(old(rows), Key(userId, leaveTypeId, currentYear), days).Ok? ==>
        var i := DeductOutcome(old(rows), Key(userId, leaveTypeId, currentYear), days).value;
        && rows == old(rows)[i := Deducted(old(rows)[i], days)]
        && r == Ok(rows[i])
    {
      var k := Key(userId, leaveTypeId, currentYear);
      var found := Lookup(rows, k);
      if found.None? {
        return Err(NoBalance(k));
      }
      var i := found.value;
      if rows[i].remainingBalance < days {
        return Err(Insufficient(rows[i].remainingBalance, days));
      }
      rows := rows[i := Deducted(rows[i], days)];
      r := Ok(rows[i]);
    }

    /** `checkBalance`: a pure read answering whether a deduction of `days`
        would go through. */
    method CheckBalance(userId: nat, leaveTypeId: nat, days: real, currentYear: int) returns (ok: bool)
      requires Valid()
      ensures ok <==> DeductOutcome(rows, Key(userId, leaveTypeId, currentYear), days).Ok?
    {
      var found := Lookup(rows, Key(userId, leaveTypeId, currentYear));
      if found.None? {
        return false;
      }
      ok := rows[found.value].remainingBalance >= days;
    }

    /** `restoreBalance`: throws when the user has no row for the type in
        the year; otherwise gives the days back to that one row. */
    method RestoreBalance(userId: nat, leaveTypeId: nat, days: real, currentYear: int)
      returns (r: Result<Balance, Error>)
      requires Valid()
      modifies this
      ensures Valid() && history == old(history) && nextId == old(nextId)
      ensures old(Lookup(rows, Key(userId, leaveTypeId, currentYear))).None? ==>
        r == Err(NoBalance(Key(userId, leaveTypeId, currentYear))) && rows == old(rows)
      ensures old(Lookup(rows, Key(userId, leaveTypeId, currentYear))).Some? ==>
        var i := old(Lookup(rows, Key(userId, leaveTypeId, currentYear))).value;
        && rows == old(rows)[i := Restored(old(rows)[i], days)]
        && r == Ok(rows[i])
    {
      var k := Key(userId, leaveTypeId, currentYear);
      var found := Lookup(rows, k);
      if found.None? {
        return Err(NoBalance(k));
      }
      var i := found.value;
      rows := rows[i := Restored(rows[i], days)];
      r := Ok(rows[i]);
    }

    /** `getBalanceHistory`: NotFound for an unknown balance, otherwise its
        history entries, newest first. */
    function GetBalanceHistory(balanceId: nat): (r: Result<seq<HistoryEntry>, Error>)
      reads this
      ensures r.Err? <==> forall i :: 0 <= i < |rows| ==> rows[i].id != balanceId
      ensures r.Ok? ==> forall i :: 0 <= i < |r.value| ==> r.value[i].balanceId == balanceId && r.value[i] in history
      ensures r.Ok? ==> forall k :: 0 <= k < |history| && history[k].balanceId == balanceId ==> history[k] in r.value
      ensures r.Ok? ==> r.value == NewestFirst(history, balanceId)
    {
      match IndexOfId(balanceId)
      case None => Err(NotFound(balanceId))
      case Some(_) => Ok(NewestFirst(history, balanceId))
    }

    /** `remove`: NotFound for an unknown id, otherwise deletes exactly that
        row. */
    method Remove(id: nat) returns (r: Result<Balance, Error>)
      requires Valid()
      modifies this
      ensures Valid() && history == old(history) && nextId == old(nextId)
      ensures old(IndexOfId(id)).None? ==> r == Err(NotFound(id)) && rows == old(rows)
      ensures old(IndexOfId(id)).Some? ==>
        var i := old(IndexOfId(id)).value;
        && r == Ok(old(rows)[i])
        && rows == old(rows)[..i] + old(rows)[i + 1..]
    {
      var found := IndexOfId(id);
      if found.None? {
        return Err(NotFound(id));
      }
      var i := found.value;
      r := Ok(rows[i]);
      DeleteKeepsKeys(rows, nextId, i);
      rows := rows[..i] + rows[i + 1..];
    }
  }

  /** Opening balances twice in a row: the second pass finds every active
      type covered and creates nothing, and the table stays as the first
      pass left it. */
  method InitializeTwice(ledger: Ledger, userId: nat, currentYear: int, types: seq<LeaveTypes.LeaveType>)
    returns (first: seq<Balance>, second: seq<Balance>)
    requires ledger.Valid()
    modifies ledger
    ensures ledger.Valid()
    ensures second == [] && ledger.rows == old(ledger.rows) + first
  {
    first := ledger.InitializeUserBalances(userId, currentYear, types);
    second := ledger.InitializeUserBalances(userId, currentYear, types);
  }

  /** Deducting and then restoring the same days on a consistent row puts
      the row back as it was. */
  method DeductThenRestoreOnLedger(ledger: Ledger, userId: nat, leaveTypeId: nat, days: real, currentYear: int)
    requires ledger.Valid() && days >= 0.0
    requires Sufficient(ledger.rows, Key(userId, leaveTypeId, currentYear), days)
    requires forall i :: 0 <= i < |ledger.rows| ==> ledger.rows[i].Consistent() && ledger.rows[i].usedBalance >= 0.0
    modifies ledger
    ensures ledger.Valid() && ledger.rows == old(ledger.rows)
  {
    var d := ledger.DeductBalance(userId, leaveTypeId, days, currentYear);
    var r := ledger.RestoreBalance(userId, leaveTypeId, days, currentYear);
    var i := DeductOutcome(old(ledger.rows), Key(userId, leaveTypeId, currentYear), days).value;
    DeductThenRestore(old(ledger.rows)[i], days);
  }
}

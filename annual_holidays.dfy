/** The annual-holiday calendar (`hrAnnualHoliday`): named one-day holidays
    and the queries that ask which holidays touch a day or a date range.

    Every holiday the service writes starts and ends on the same instant and
    counts one day; the table keeps that shape. Holiday kinds are compared
    by name (the enum's members are not part of this model). */
module AnnualHolidays {
  import opened Common
  import opened Query
  import opened Calendar

  datatype Holiday = Holiday(
    id: nat,
    holidayName: string,
    holidayType: string,
    startDate: Instant,
    endDate: Instant,
    totalDays: nat,
    description: Option<string>,
    isRecurring: bool)

  datatype NewHoliday = NewHoliday(
    name: string,
    date: Instant,
    kind: string,
    description: Option<string>,
    isRecurring: Option<bool>)

  /** The body of an update request; `None` is a field left out. */
  datatype HolidayEdit = HolidayEdit(
    name: Option<string>,
    date: Option<Instant>,
    kind: Option<string>,
    description: Option<string>,
    isRecurring: Option<bool>)

  datatype Error = NotFound(id: nat)

  /** The row `create` inserts: a one-day holiday on the given date, not
      recurring unless the caller says so. */
  function Declared(id: nat, dto: NewHoliday): (h: Holiday)
    ensures h.id == id && h.holidayName == dto.name && h.holidayType == dto.kind
    ensures h.startDate == dto.date && h.endDate == dto.date && h.totalDays == 1
    ensures h.description == dto.description
    ensures h.isRecurring <==> dto.isRecurring == Some(true)
  {
    Holiday(id, dto.name, dto.kind, dto.date, dto.date, 1, dto.description, dto.isRecurring.GetOr(false))
  }

  /** The row after `update`: a new date moves start and end together, the
      day count is written as 1 again, and left-out fields stay. */
  function Amended(h: Holiday, dto: HolidayEdit): (r: Holiday)
    ensures r.id == h.id && r.totalDays == 1
    ensures dto.date.Some? ==> r.startDate == dto.date.value && r.endDate == dto.date.value
    ensures dto.date.None? ==> r.startDate == h.startDate && r.endDate == h.endDate
    ensures r.holidayName == dto.name.GetOr(h.holidayName)
    ensures r.holidayType == dto.kind.GetOr(h.holidayType)
    ensures dto.description.None? ==> r.description == h.description
    ensures dto.description.Some? ==> r.description == dto.description
    ensures r.isRecurring == dto.isRecurring.GetOr(h.isRecurring)
  {
    h.(holidayName := dto.name.GetOr(h.holidayName),
       holidayType := dto.kind.GetOr(h.holidayType),
       startDate := dto.date.GetOr(h.startDate),
       endDate := dto.date.GetOr(h.endDate),
       totalDays := 1,
       description := if dto.description.Some? then dto.description else h.description,
       isRecurring := dto.isRecurring.GetOr(h.isRecurring))
  }

  /** One calendar day, counted once. */
  predicate SingleDay(h: Holiday) {
    h.startDate == h.endDate && h.totalDays == 1
  }

  /** The overlap rule of `isHoliday` and `getHolidaysBetweenDates`: the
      holiday starts no later than `b` and ends no earlier than `a`. */
  predicate Overlaps(h: Holiday, a: Instant, b: Instant) {
    h.startDate <= b && h.endDate >= a
  }

  /** `orderBy: { startDate: 'asc' }`. */
  predicate ByStart(a: Holiday, b: Holiday) {
    a.startDate <= b.startDate
  }

  lemma ByStartIsTotalPreorder()
    ensures TotalPreorder(ByStart)
  {
  }

  /** A sorted copy holds the same rows. */
  lemma SameRows<T>(r: seq<T>, s: seq<T>)
    requires multiset(r) == multiset(s)
    ensures forall x :: x in r <==> x in s
  {
    forall x ensures x in r <==> x in s {
      assert x in r <==> x in multiset(r);
      assert x in s <==> x in multiset(s);
    }
  }

  /** The `where` of `findAll(year?, type?)`: a year (other than 0) keeps the
      holidays starting inside that year, a non-empty kind keeps that kind. */
  predicate InYearAndKind(year: Option<int>, kind: Option<string>, h: Holiday) {
    && (year.Some? && year.value != 0 ==> YearStart(year.value) <= h.startDate <= YearEnd(year.value))
    && (kind.Some? && kind.value != "" ==> h.holidayType == kind.value)
  }

  /** The first `limit` holidays of the table starting at or after `today`,
      earliest first, each at most as often as the table holds it. */
  function FirstFrom(holidays: seq<Holiday>, today: Instant, limit: nat): (r: seq<Holiday>)
    ensures |r| <= limit && SortedBy(r, ByStart)
    ensures forall i :: 0 <= i < |r| ==> r[i] in holidays && r[i].startDate >= today
    ensures forall h :: h in holidays && h.startDate >= today && h !in r ==>
      |r| == limit && forall i :: 0 <= i < |r| ==> r[i].startDate <= h.startDate
    ensures multiset(r) <= multiset(Where(holidays, (h: Holiday) => h.startDate >= today))
  {
    ByStartIsTotalPreorder();
    var matching := Where(holidays, (h: Holiday) => h.startDate >= today);
    var sorted := OrderBy(matching, ByStart);
    SameRows(sorted, matching);
    var r := Page(sorted, 0, limit);
    FirstPageSubMultiset(sorted, limit);
    forall i | 0 <= i < |r| ensures r[i] in holidays && r[i].startDate >= today {
      assert r[i] == sorted[i] && sorted[i] in matching;
    }
    forall h | h in holidays && h.startDate >= today && h !in r
      ensures |r| == limit && forall i :: 0 <= i < |r| ==> r[i].startDate <= h.startDate
    {
      PageHead(sorted, ByStart, limit, h);
    }
    r
  }

  class HolidayTable {
    var holidays: seq<Holiday>
    var nextId: nat

    ghost predicate Valid()
      reads this
    {
      && nextId > 0
      && (forall i :: 0 <= i < |holidays| ==> 0 < holidays[i].id < nextId && SingleDay(holidays[i]))
      && (forall i, j :: 0 <= i < j < |holidays| ==> holidays[i].id != holidays[j].id)
    }

    constructor ()
      ensures Valid() && holidays == [] && nextId == 1
    {
      holidays := [];
      nextId := 1;
    }

    function IndexOf(id: nat): Option<nat>
      reads this
    {
      FindFirst(holidays, (h: Holiday) => h.id == id)
    }

    /** `findOne`: the holiday with this `id`, or NotFound. */
    function FindOne(id: nat): (r: Result<Holiday, Error>)
      reads this
      ensures r.Err? <==> forall i :: 0 <= i < |holidays| ==> holidays[i].id != id
      ensures r.Err? ==> r.error == NotFound(id)
      ensures r.Ok? ==> r.value in holidays && r.value.id == id
    {
      match IndexOf(id)
      case None => Err(NotFound(id))
      case Some(i) => Ok(holidays[i])
    }

    /** `findAll(year?, type?)`: exactly the matching holidays, earliest first. */
    function FindAll(year: Option<int>, kind: Option<string>): (r: seq<Holiday>)
      reads this
      ensures SortedBy(r, ByStart)
      ensures forall h :: h in r <==> h in holidays && InYearAndKind(year, kind, h)
      ensures multiset(r) == multiset(Where(holidays, (h: Holiday) => InYearAndKind(year, kind, h)))
    {
      ByStartIsTotalPreorder();
      var matching := Where(holidays, (h: Holiday) => InYearAndKind(year, kind, h));
      var r := OrderBy(matching, ByStart);
      SameRows(r, matching);
      r
    }

    /** `getHolidaysBetweenDates(a, b)`: exactly the holidays overlapping
        `[a, b]`, earliest first. */
    function Between(a: Instant, b: Instant): (r: seq<Holiday>)
      reads this
      ensures SortedBy(r, ByStart)
      ensures forall h :: h in r <==> h in holidays && Overlaps(h, a, b)
      ensures multiset(r) == multiset(Where(holidays, (h: Holiday) => Overlaps(h, a, b)))
    {
      ByStartIsTotalPreorder();
      var matching := Where(holidays, (h: Holiday) => Overlaps(h, a, b));
      var r := OrderBy(matching, ByStart);
      SameRows(r, matching);
      r
    }

    /** `getUpcomingHolidays(limit)`: the first `limit` holidays starting at
        or after midnight of `now`, earliest first; a holiday left out
        starts no earlier than any returned one, and is left out only
        because the limit was reached. */
    function Upcoming(now: Instant, limit: nat): (r: seq<Holiday>)
      reads this
      ensures |r| <= limit && SortedBy(r, ByStart)
      ensures forall i :: 0 <= i < |r| ==> r[i] in holidays && r[i].startDate >= StartOfDay(now)
      ensures forall h :: h in holidays && h.startDate >= StartOfDay(now) && h !in r ==>
        |r| == limit && forall i :: 0 <= i < |r| ==> r[i].startDate <= h.startDate
      ensures multiset(r) <= multiset(Where(holidays, (h: Holiday) => h.startDate >= StartOfDay(now)))
    {
      FirstFrom(holidays, StartOfDay(now), limit)
    }

    /** `isHoliday(d)`: some holiday overlaps the local day holding `d`. */
    predicate IsHoliday(d: Instant)
      reads this
    {
      FindFirst(holidays, (h: Holiday) => Overlaps(h, StartOfDay(d), EndOfDay(d))).Some?
    }

    /** `create`: appends the `Declared` row under the next id. */
    method Create(dto: NewHoliday) returns (h: Holiday)
      requires Valid()
      modifies this
      ensures Valid()
      ensures h == Declared(old(nextId), dto) && holidays == old(holidays) + [h]
      ensures nextId == old(nextId) + 1
    {
      h := Declared(nextId, dto);
      holidays := holidays + [h];
      nextId := nextId + 1;
    }

    /** `update`: NotFound for an unknown id; otherwise rewrites that one
        row as `Amended`. */
    method Update(id: nat, dto: HolidayEdit) returns (r: Result<Holiday, Error>)
      requires Valid()
      modifies this
      ensures Valid() && nextId == old(nextId)
      ensures old(IndexOf(id)).None? ==> r == Err(NotFound(id)) && holidays == old(holidays)
      ensures old(IndexOf(id)).Some? ==>
        var i := old(IndexOf(id)).value;
        r == Ok(Amended(old(holidays)[i], dto)) && holidays == old(holidays)[i := r.value]
    {
      var found := IndexOf(id);
      if found.None? {
        return Err(NotFound(id));
      }
      var i := found.value;
      var h := Amended(holidays[i], dto);
      holidays := holidays[i := h];
      r := Ok(h);
    }

    /** `remove`: NotFound for an unknown id; otherwise deletes that one row. */
    method Remove(id: nat) returns (r: Result<Holiday, Error>)
      requires Valid()
      modifies this
      ensures Valid() && nextId == old(nextId)
      ensures old(IndexOf(id)).None? ==> r == Err(NotFound(id)) && holidays == old(holidays)
      ensures old(IndexOf(id)).Some? ==>
        var i := old(IndexOf(id)).value;
        r == Ok(old(holidays)[i]) && holidays == old(holidays)[..i] + old(holidays)[i + 1..]
    {
      var found := IndexOf(id);
      if found.None? {
        return Err(NotFound(id));
      }
      var i := found.value;
      r := Ok(holidays[i]);
      holidays := holidays[..i] + holidays[i + 1..];
    }
  }

  /** `isHoliday(d)` holds exactly when some holiday overlaps the day of
      `d`, which is when the range query over that day is not empty. */
  lemma IsHolidayIffBetween(t: HolidayTable, d: Instant)
    ensures t.IsHoliday(d) <==> exists h :: h in t.holidays && Overlaps(h, StartOfDay(d), EndOfDay(d))
    ensures t.IsHoliday(d) <==> t.Between(StartOfDay(d), EndOfDay(d)) != []
  {
    var f := FindFirst(t.holidays, (h: Holiday) => Overlaps(h, StartOfDay(d), EndOfDay(d)));
    var r := t.Between(StartOfDay(d), EndOfDay(d));
    if f.Some? {
      assert t.holidays[f.value] in r;
    }
  }

  /** With one-day holidays, a day is a holiday exactly when some holiday
      starts between its midnight and 23:59:59.000. */
  lemma SingleDayHoliday(t: HolidayTable, d: Instant)
    requires t.Valid()
    ensures t.IsHoliday(d) <==>
      exists i :: 0 <= i < |t.holidays| && StartOfDay(d) <= t.holidays[i].startDate <= EndOfDay(d)
  {
    IsHolidayIffBetween(t, d);
    if t.IsHoliday(d) {
      var h :| h in t.holidays && Overlaps(h, StartOfDay(d), EndOfDay(d));
      var i :| 0 <= i < |t.holidays| && t.holidays[i] == h;
      assert StartOfDay(d) <= t.holidays[i].startDate <= EndOfDay(d);
    }
  }

  /** A freshly created holiday makes its own date a holiday, unless the
      date falls in the last second of its day (after the 23:59:59.000 that
      `isHoliday` takes as the end of the day). */
  method CreateThenAsk(t: HolidayTable, dto: NewHoliday)
    requires t.Valid()
    modifies t
    ensures t.Valid()
    ensures dto.date <= EndOfDay(dto.date) ==> t.IsHoliday(dto.date)
  {
    var h := t.Create(dto);
    assert t.holidays[|t.holidays| - 1] == h;
    SingleDayHoliday(t, dto.date);
  }
}

/**
 * Controllers/LedgerEntriesController.cs: the LedgerEntries table endpoints
 * and the list filter by vendor and by an inclusive window of whole days.
 */
module LedgerEntriesController {
  import opened Wrappers
  import opened DateTimes
  import opened Models
  import opened Data
  import opened Http

  const VendorDoesNotExist := "Vendor does not exist"

  /** The optional query parameters `vendorId`, `from` and `to`. */
  datatype LedgerQuery = LedgerQuery(vendorId: Option<int>, from: Option<Ticks>, to: Option<Ticks>)

  /** The declarative meaning of the filter: the vendor matches when one is
      given, and the entry's day lies between the day of `from` and the day
      of `to`, both included, whatever their time of day. */
  predicate Matches(e: LedgerEntry, q: LedgerQuery) {
    && (q.vendorId.None? || e.vendorId == q.vendorId.value)
    && (q.from.None? || DayNumber(e.date) >= DayNumber(q.from.value))
    && (q.to.None? || DayNumber(e.date) <= DayNumber(q.to.value))
  }

  /** `to.Value.Date.AddDays(1).AddTicks(-1)` as written; `None` is the
      ArgumentOutOfRangeException that AddDays throws on the last day. */
  function EndOfDayAsWritten(to: Ticks): (end: Option<Ticks>)
    ensures end.None? <==> Date(to) + TicksPerDay > MaxTicks
    ensures end.Some? ==> end.value + 1 == Date(to) + TicksPerDay
  {
    match AddDays(Date(to), 1)
    case None => None
    case Some(next) => AddTicks(next, -1)
  }

  /** The last tick of the day of `to`, computed without leaving the range
      of `DateTime`. */
  function EndOfDay(to: Ticks): (end: Ticks)
    ensures end + 1 == Date(to) + TicksPerDay
    ensures DayNumber(end) == DayNumber(to)
  {
    Date(to) + TicksPerDay - 1
  }

  /** On 9999-12-31 the bound as written throws instead of answering. */
  lemma EndOfDayAsWrittenThrowsOnLastDay(to: Ticks)
    requires DayNumber(to) == DayNumber(MaxTicks)
    ensures EndOfDayAsWritten(to) == None
  {
    LastDay();
  }

  /** Before the last representable day the bound as written is EndOfDay. */
  lemma EndOfDayAsWrittenBeforeLastDay(to: Ticks)
    requires DayNumber(to) < DayNumber(MaxTicks)
    ensures EndOfDayAsWritten(to) == Some(EndOfDay(to))
  {
    LastDay();
  }

  /** A concrete input on which the as-written bound throws: 9999-12-31 at
      midnight. */
  lemma EndOfDayAsWrittenCounterexample()
    ensures EndOfDayAsWritten(MaxTicks - TicksPerDay + 1) == None
    ensures EndOfDay(MaxTicks - TicksPerDay + 1) == MaxTicks
  {
    LastDay();
  }

  /** `e.Date >= from.Value.Date` keeps exactly the entries on or after the
      day of `from`. */
  lemma FromBoundIsWholeDay(from: Ticks, t: Ticks)
    ensures t >= Date(from) <==> DayNumber(t) >= DayNumber(from)
  {
  }

  /** `e.Date <= end` keeps exactly the entries on or before the day of
      `to`: the whole `to` day is included. */
  lemma ToBoundIsWholeDay(to: Ticks, t: Ticks)
    ensures t <= EndOfDay(to) <==> DayNumber(t) <= DayNumber(to)
  {
  }

  /** `query.Where(keep)` on the rows of the table. */
  function Where(rows: map<int, LedgerEntry>, keep: LedgerEntry -> bool): (r: map<int, LedgerEntry>)
    ensures forall id :: id in r <==> id in rows && keep(rows[id])
    ensures forall id :: id in r ==> r[id] == rows[id]
  {
    map id | id in rows && keep(rows[id]) :: rows[id]
  }

  /** GET api/ledgerentries?vendorId=&from=&to=: each supplied parameter
      narrows the query; an absent one imposes nothing. A `to` on the last
      representable day makes the bound as written throw, and the request
      fails before the query runs. */
  method GetLedgerEntries(db: AccountingContext, q: LedgerQuery) returns (r: Response<map<int, LedgerEntry>>)
    ensures r == ServerError <==> q.to.Some? && DayNumber(q.to.value) == DayNumber(MaxTicks)
    ensures r != ServerError ==> r.Ok?
    ensures r.Ok? ==> forall id :: id in r.body <==> id in db.ledgerEntries && Matches(db.ledgerEntries[id], q)
    ensures r.Ok? ==> forall id :: id in r.body ==> r.body[id] == db.ledgerEntries[id]
  {
    LastDay();
    var query := db.ledgerEntries;
    if q.vendorId.Some? {
      var vendorId := q.vendorId.value;
      query := Where(query, (e: LedgerEntry) => e.vendorId == vendorId);
    }
    if q.from.Some? {
      var start := Date(q.from.value);
      query := Where(query, (e: LedgerEntry) => e.date >= start);
    }
    if q.to.Some? {
      var bound := EndOfDayAsWritten(q.to.value);
      if bound.None? {
        return ServerError;
      }
      EndOfDayAsWrittenBeforeLastDay(q.to.value);
      var end := bound.value;
      query := Where(query, (e: LedgerEntry) => e.date <= end);
    }
    return Ok(query);
  }

  /** GET api/ledgerentries/{id}. */
  method GetLedgerEntry(db: AccountingContext, id: int) returns (r: Response<LedgerEntry>)
    ensures id in db.ledgerEntries ==> r == Ok(db.ledgerEntries[id])
    ensures id !in db.ledgerEntries ==> r == NotFound
  {
    if id !in db.ledgerEntries {
      return NotFound;
    }
    return Ok(db.ledgerEntries[id]);
  }

  /** POST api/ledgerentries: refused unless the entry is valid and its
      vendor exists; the new row gets the next identity value. */
  method PostLedgerEntry(db: AccountingContext, entry: LedgerEntry) returns (r: Response<LedgerEntry>)
    requires db.Valid()
    modifies db`ledgerEntries, db`nextEntryId
    ensures db.Valid()
    ensures !LedgerEntryValid(entry) ==> r == ValidationProblem && unchanged(db)
    ensures LedgerEntryValid(entry) && entry.vendorId !in old(db.vendors) ==>
      r == BadRequest(Some(VendorDoesNotExist)) && unchanged(db)
    ensures LedgerEntryValid(entry) && entry.vendorId in old(db.vendors) ==>
      var stored := entry.(id := old(db.nextEntryId));
      && r == Created(stored.id, stored)
      && stored.id !in old(db.ledgerEntries)
      && db.ledgerEntries == old(db.ledgerEntries)[stored.id := stored]
      && |db.ledgerEntries| == |old(db.ledgerEntries)| + 1
      && db.nextEntryId == old(db.nextEntryId) + 1
    ensures r.Created? ==> r.body.vendorId in db.vendors
    ensures EntriesReferenceVendors(old(db.ledgerEntries), old(db.vendors)) ==>
      EntriesReferenceVendors(db.ledgerEntries, db.vendors)
  {
    if !LedgerEntryValid(entry) {
      return ValidationProblem;
    }
    if entry.vendorId !in db.vendors {
      return BadRequest(Some(VendorDoesNotExist));
    }
    var stored := entry.(id := db.nextEntryId);
    db.ledgerEntries := db.ledgerEntries[stored.id := stored];
    db.nextEntryId := db.nextEntryId + 1;
    return Created(stored.id, stored);
  }

  /** PUT api/ledgerentries/{id}: the whole record is replaced. The vendor
      is not checked again, so the references are kept only when the new
      vendor id exists. */
  method PutLedgerEntry(db: AccountingContext, id: int, entry: LedgerEntry) returns (r: Response<()>)
    requires db.Valid()
    modifies db`ledgerEntries
    ensures db.Valid()
    ensures id != entry.id ==> r == BadRequest(None) && unchanged(db)
    ensures id == entry.id && !LedgerEntryValid(entry) ==> r == ValidationProblem && unchanged(db)
    ensures id == entry.id && LedgerEntryValid(entry) && id !in old(db.ledgerEntries) ==>
      r == NotFound && unchanged(db)
    ensures id == entry.id && LedgerEntryValid(entry) && id in old(db.ledgerEntries) ==>
      r == NoContent && db.ledgerEntries == old(db.ledgerEntries)[id := entry]
    ensures EntriesReferenceVendors(old(db.ledgerEntries), old(db.vendors)) && entry.vendorId in db.vendors ==>
      EntriesReferenceVendors(db.ledgerEntries, db.vendors)
  {
    if id != entry.id {
      return BadRequest(None);
    }
    if !LedgerEntryValid(entry) {
      return ValidationProblem;
    }
    if id !in db.ledgerEntries {
      return NotFound;
    }
    db.ledgerEntries := db.ledgerEntries[id := entry];
    return NoContent;
  }

  /** DELETE api/ledgerentries/{id}. */
  method DeleteLedgerEntry(db: AccountingContext, id: int) returns (r: Response<()>)
    requires db.Valid()
    modifies db`ledgerEntries
    ensures db.Valid()
    ensures id !in old(db.ledgerEntries) ==> r == NotFound && unchanged(db)
    ensures id in old(db.ledgerEntries) ==>
      r == NoContent && db.ledgerEntries == old(db.ledgerEntries) - {id}
    ensures EntriesReferenceVendors(old(db.ledgerEntries), old(db.vendors)) ==>
      EntriesReferenceVendors(db.ledgerEntries, db.vendors)
  {
    if id !in db.ledgerEntries {
      return NotFound;
    }
    db.ledgerEntries := db.ledgerEntries - {id};
    return NoContent;
  }
}

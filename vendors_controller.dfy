/**
 * Controllers/VendorsController.cs: the Vendors table endpoints. Deleting a
 * vendor deletes its ledger entries through the cascading foreign key.
 */
module VendorsController {
  import opened Wrappers
  import opened Models
  import opened Data
  import opened Http

  const MismatchedVendorId := "Mismatched vendor id"

  /** GET api/vendors/{id}. */
  method GetVendor(db: AccountingContext, id: int) returns (r: Response<Vendor>)
    ensures id in db.vendors ==> r == Ok(db.vendors[id])
    ensures id !in db.vendors ==> r == NotFound
  {
    if id !in db.vendors {
      return NotFound;
    }
    return Ok(db.vendors[id]);
  }

  /** POST api/vendors: refused unless the vendor is valid; the new row
      gets the next identity value. */
  method PostVendor(db: AccountingContext, vendor: Vendor) returns (r: Response<Vendor>)
    requires db.Valid()
    modifies db`vendors, db`nextVendorId
    ensures db.Valid()
    ensures !VendorValid(vendor) ==> r == ValidationProblem && unchanged(db)
    ensures VendorValid(vendor) ==>
      var stored := vendor.(id := old(db.nextVendorId));
      && r == Created(stored.id, stored)
      && stored.id !in old(db.vendors)
      && db.vendors == old(db.vendors)[stored.id := stored]
      && db.nextVendorId == old(db.nextVendorId) + 1
    ensures EntriesReferenceVendors(old(db.ledgerEntries), old(db.vendors)) ==>
      EntriesReferenceVendors(db.ledgerEntries, db.vendors)
  {
    if !VendorValid(vendor) {
      return ValidationProblem;
    }
    var stored := vendor.(id := db.nextVendorId);
    db.vendors := db.vendors[stored.id := stored];
    db.nextVendorId := db.nextVendorId + 1;
    return Created(stored.id, stored);
  }

  /** PUT api/vendors/{id}: the whole record is marked modified and saved;
      an update of no row is the concurrency exception, answered with
      NotFound when the row does not exist. */
  method PutVendor(db: AccountingContext, id: int, vendor: Vendor) returns (r: Response<()>)
    requires db.Valid()
    modifies db`vendors
    ensures db.Valid()
    ensures id != vendor.id ==> r == BadRequest(Some(MismatchedVendorId)) && unchanged(db)
    ensures id == vendor.id && !VendorValid(vendor) ==> r == ValidationProblem && unchanged(db)
    ensures id == vendor.id && VendorValid(vendor) && id !in old(db.vendors) ==>
      r == NotFound && unchanged(db)
    ensures id == vendor.id && VendorValid(vendor) && id in old(db.vendors) ==>
      r == NoContent && db.vendors == old(db.vendors)[id := vendor]
    ensures EntriesReferenceVendors(old(db.ledgerEntries), old(db.vendors)) ==>
      EntriesReferenceVendors(db.ledgerEntries, db.vendors)
  {
    if id != vendor.id {
      return BadRequest(Some(MismatchedVendorId));
    }
    if !VendorValid(vendor) {
      return ValidationProblem;
    }
    if id !in db.vendors {
      return NotFound;
    }
    db.vendors := db.vendors[id := vendor];
    return NoContent;
  }

  /** DELETE api/vendors/{id}: the vendor goes, and with it every ledger
      entry that references it. */
  method DeleteVendor(db: AccountingContext, id: int) returns (r: Response<()>)
    requires db.Valid()
    modifies db`vendors, db`ledgerEntries
    ensures db.Valid()
    ensures id !in old(db.vendors) ==> r == NotFound && unchanged(db)
    ensures id in old(db.vendors) ==>
      && r == NoContent
      && db.vendors == old(db.vendors) - {id}
      && db.ledgerEntries == CascadeDelete(old(db.ledgerEntries), id)
    ensures EntriesReferenceVendors(old(db.ledgerEntries), old(db.vendors)) ==>
      EntriesReferenceVendors(db.ledgerEntries, db.vendors)
  {
    if id !in db.vendors {
      return NotFound;
    }
    db.vendors := db.vendors - {id};
    db.ledgerEntries := CascadeDelete(db.ledgerEntries, id);
    return NoContent;
  }
}

/**
 * Request sequences against a fresh database, proved from the endpoint
 * contracts alone.
 */
module Scenarios {
  import opened Wrappers
  import opened Models
  import opened Crypto
  import opened Data
  import opened Http
  import UsersController
  import VendorsController
  import LedgerEntriesController

  /** A ledger entry for a vendor that was never created is refused, and
      the same entry is accepted once its vendor exists. */
  method EntryNeedsItsVendor(entry: LedgerEntry, vendor: Vendor) returns (before: Response<LedgerEntry>, after: Response<LedgerEntry>)
    requires LedgerEntryValid(entry) && entry.vendorId == 1 && VendorValid(vendor)
    ensures before == BadRequest(Some(LedgerEntriesController.VendorDoesNotExist))
    ensures after.Created? && after.body.vendorId == 1
  {
    var db := new AccountingContext();
    before := LedgerEntriesController.PostLedgerEntry(db, entry);
    var created := VendorsController.PostVendor(db, vendor);
    after := LedgerEntriesController.PostLedgerEntry(db, entry);
  }

  /** After a vendor is created, creating two users with the same username
      gives Created and then Conflict, and leaves one user in the table. */
  method DuplicateUsername(vendor: Vendor, user: User, other: User, hasher: PasswordHasher)
    returns (first: Response<User>, second: Response<User>, count: nat)
    requires UserValid(user) && UserValid(other) && other.username == user.username
    ensures first.Created? && first.body.username == user.username
    ensures second == Conflict(UsersController.UsernameExists)
    ensures count == 1
  {
    var db := new AccountingContext();
    var created := VendorsController.PostVendor(db, vendor);
    first := UsersController.PostUser(db, user, hasher);
    second := UsersController.PostUser(db, other, hasher);
    count := |db.users|;
  }

  /** Deleting a vendor deletes its entries and keeps another vendor's. */
  method CascadeOnDelete(a: Vendor, b: Vendor, ea: LedgerEntry, eb: LedgerEntry)
    returns (left: map<int, LedgerEntry>)
    requires VendorValid(a) && VendorValid(b)
    requires LedgerEntryValid(ea) && LedgerEntryValid(eb) && ea.vendorId == 1 && eb.vendorId == 2
    ensures left.Keys == {2} && left[2] == eb.(id := 2)
  {
    var db := new AccountingContext();
    var ra := VendorsController.PostVendor(db, a);
    var rb := VendorsController.PostVendor(db, b);
    var r1 := LedgerEntriesController.PostLedgerEntry(db, ea);
    var r2 := LedgerEntriesController.PostLedgerEntry(db, eb);
    assert db.ledgerEntries == map[1 := ea.(id := 1), 2 := eb.(id := 2)];
    var d := VendorsController.DeleteVendor(db, 1);
    left := db.ledgerEntries;
    assert 1 !in left && 2 in left;
  }
}

/**
 * The database as the service sees it through AccountingContext: three
 * tables keyed by id, each with an identity counter that hands out fresh
 * ids, and the cascade rule from vendors to their ledger entries.
 */
module Data {
  import opened Models

  /** No two users share a username. */
  ghost predicate UniqueUsernames(users: map<int, User>) {
    forall i, j :: i in users && j in users && users[i].username == users[j].username ==> i == j
  }

  /** Some user has exactly this username. */
  predicate UsernameTaken(users: map<int, User>, name: string)
    ensures UsernameTaken(users, name) <==> name in (set id | id in users :: users[id].username)
  {
    exists id :: id in users && users[id].username == name
  }

  /** Some user other than `id` has this username. */
  predicate UsernameTakenByOther(users: map<int, User>, name: string, id: int)
    ensures UsernameTakenByOther(users, name, id) <==>
      exists other :: other in users && other != id && users[other].username == name
    ensures id !in users ==> (UsernameTakenByOther(users, name, id) <==> UsernameTaken(users, name))
  {
    var rest := users - {id};
    assert forall other :: other in rest <==> other in users && other != id;
    assert forall other :: other in rest ==> rest[other] == users[other];
    UsernameTaken(rest, name)
  }

  /** Every ledger entry names a vendor of the table (the foreign key of
      Data/AccountingContext.cs). */
  ghost predicate EntriesReferenceVendors(entries: map<int, LedgerEntry>, vendors: map<int, Vendor>) {
    forall id :: id in entries ==> entries[id].vendorId in vendors
  }

  /** The ledger entries left after deleting vendor `vendorId` with
      `DeleteBehavior.Cascade`. */
  function CascadeDelete(entries: map<int, LedgerEntry>, vendorId: int): (r: map<int, LedgerEntry>)
    ensures forall id :: id in r <==> id in entries && entries[id].vendorId != vendorId
    ensures forall id :: id in r ==> r[id] == entries[id]
  {
    map id | id in entries && entries[id].vendorId != vendorId :: entries[id]
  }

  /** Deleting a vendor with its entries keeps every remaining entry
      pointing at a remaining vendor. */
  lemma CascadeKeepsReferences(entries: map<int, LedgerEntry>, vendors: map<int, Vendor>, vendorId: int)
    requires EntriesReferenceVendors(entries, vendors)
    ensures EntriesReferenceVendors(CascadeDelete(entries, vendorId), vendors - {vendorId})
    ensures forall id :: id in entries && entries[id].vendorId == vendorId ==> id !in CascadeDelete(entries, vendorId)
  {
  }

  class AccountingContext {
    var users: map<int, User>
    var vendors: map<int, Vendor>
    var ledgerEntries: map<int, LedgerEntry>
    /** The next value of each table's IDENTITY column. */
    var nextUserId: int
    var nextVendorId: int
    var nextEntryId: int

    /** Each row is stored under its own id, ids are below the table's
        identity counter, and usernames are unique. */
    ghost predicate Valid()
      reads this
    {
      && 0 < nextUserId && 0 < nextVendorId && 0 < nextEntryId
      && (forall id :: id in users ==> users[id].id == id && 0 < id < nextUserId)
      && (forall id :: id in vendors ==> vendors[id].id == id && 0 < id < nextVendorId)
      && (forall id :: id in ledgerEntries ==> ledgerEntries[id].id == id && 0 < id < nextEntryId)
      && UniqueUsernames(users)
    }

    /** An empty database, as left by the migrations; every IDENTITY
        column starts at 1. */
    constructor ()
      ensures Valid()
      ensures users == map[] && vendors == map[] && ledgerEntries == map[]
      ensures nextUserId == 1 && nextVendorId == 1 && nextEntryId == 1
      ensures EntriesReferenceVendors(ledgerEntries, vendors)
    {
      users, vendors, ledgerEntries := map[], map[], map[];
      nextUserId, nextVendorId, nextEntryId := 1, 1, 1;
    }
  }
}

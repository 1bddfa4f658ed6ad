/**
 * The three entity types of the service (Models/User.cs, Models/Vendor.cs,
 * Models/LedgerEntry.cs) and the validity predicates that stand for
 * `ModelState.IsValid` on their data annotations. The models are compiled in
 * a nullable context (`Vendor?`, `= default!`), so MVC also treats every
 * non-nullable string property as `[Required]`: null, empty and
 * whitespace-only values are refused.
 */
module Models {
  import opened Strings
  import opened DateTimes

  datatype User = User(id: int, username: string, passwordHash: string, role: string)

  /** A vendor's ledger entries are the entries of the LedgerEntries table
      whose `vendorId` is its id. */
  datatype Vendor = Vendor(id: int, name: string, address: string, phone: string)

  /** `Amount` is a .NET `decimal`, held exactly as a real; `entryType` is the
      `Type` property ("Credit" or "Debit" by convention only). */
  datatype LedgerEntry = LedgerEntry(
    id: int,
    vendorId: int,
    amount: real,
    entryType: string,
    date: Ticks,
    description: string)

  /** `[Required, StringLength(50, MinimumLength = 3)]` on Username. */
  predicate UsernameValid(s: string) {
    !IsBlank(s) && 3 <= |s| <= 50
  }

  /** `[Required, StringLength(64, MinimumLength = 64)]` on PasswordHash. */
  predicate PasswordHashValid(s: string) {
    !IsBlank(s) && |s| == 64
  }

  /** `[Required, StringLength(20)]` on Role. */
  predicate RoleValid(s: string) {
    !IsBlank(s) && |s| <= 20
  }

  /** `ModelState.IsValid` for a User body. */
  predicate UserValid(u: User)
    ensures UserValid(u) ==> 3 <= |u.username| <= 50 && |u.passwordHash| == 64 && 1 <= |u.role| <= 20
  {
    UsernameValid(u.username) && PasswordHashValid(u.passwordHash) && RoleValid(u.role)
  }

  /** Vendor declares no attributes; the implicit `[Required]` on the
      non-nullable Name, Address and Phone is all there is. */
  predicate VendorValid(v: Vendor)
    ensures VendorValid(v) ==> |v.name| > 0 && |v.address| > 0 && |v.phone| > 0
  {
    !IsBlank(v.name) && !IsBlank(v.address) && !IsBlank(v.phone)
  }

  /** `[Range(0.01, double.MaxValue)]` on Amount, `[Required, StringLength(10)]`
      on Type and `[StringLength(200)]` plus the implicit `[Required]` on
      Description. `[Required]` on the value-typed VendorId and Date always
      holds. */
  predicate LedgerEntryValid(e: LedgerEntry)
    ensures LedgerEntryValid(e) ==> e.amount > 0.0 && 1 <= |e.entryType| <= 10 && 1 <= |e.description| <= 200
  {
    && e.amount >= 0.01
    && !IsBlank(e.entryType) && |e.entryType| <= 10
    && !IsBlank(e.description) && |e.description| <= 200
  }

  /** Validity of a user depends on Username, PasswordHash and Role only;
      the Id is unconstrained. */
  lemma UserValidityIgnoresId(u: User, id: int)
    ensures UserValid(u.(id := id)) == UserValid(u)
  {
  }

  /** A vendor is valid exactly when none of its three strings is blank;
      the Id is unconstrained. */
  lemma VendorValidity(v: Vendor, id: int)
    ensures VendorValid(v.(id := id)) == VendorValid(v)
    ensures !VendorValid(v.(name := "")) && !VendorValid(v.(address := "")) && !VendorValid(v.(phone := ""))
    ensures !VendorValid(v.(phone := " "))
    ensures VendorValid(Vendor(id, "a", "b", "c"))
  {
    assert !IsBlank("a") by { assert !IsWhiteSpace("a"[0]); }
    assert !IsBlank("b") by { assert !IsWhiteSpace("b"[0]); }
    assert !IsBlank("c") by { assert !IsWhiteSpace("c"[0]); }
  }

  /** Neither the vendor id nor the date is constrained; an empty type or
      description is refused, as is a description one character too long. */
  lemma LedgerEntryValidity(e: LedgerEntry, vendorId: int, date: Ticks)
    ensures LedgerEntryValid(e.(vendorId := vendorId, date := date)) == LedgerEntryValid(e)
    ensures !LedgerEntryValid(e.(entryType := ""))
    ensures !LedgerEntryValid(e.(description := ""))
    ensures |e.description| == 201 ==> !LedgerEntryValid(e)
    ensures e.amount < 0.01 ==> !LedgerEntryValid(e)
  {
  }
}

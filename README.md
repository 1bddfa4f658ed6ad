# AccountingAPI in Dafny

A model of the decision rules of a small accounting web API. It has three database
tables: Users, Vendors and LedgerEntries. The endpoints create, read, update and delete
their rows. A login endpoint checks a username and password and issues a signed token.
At start-up, the initializer seeds an admin user into an empty Users table. As written,
the host registers no password hasher for it to use; see "## Left out".

The model is organised by source file:

- `Data.AccountingContext` (accounting_context.dfy) holds the three tables as maps from id
  to record, with one IDENTITY counter per table. Its invariant `Valid()` says: each row is
  stored under its own id; ids are fresh (below the counter); usernames are unique.
  `EntriesReferenceVendors` is the vendor foreign key. `CascadeDelete` is its
  `DeleteBehavior.Cascade` rule.
- `UsersController`, `VendorsController` and `LedgerEntriesController` give each endpoint
  as a method. It returns an action result (`Http.Response`: Ok, Created, NoContent,
  BadRequest with or without a message, ValidationProblem, NotFound, Conflict, and
  ServerError for an unhandled exception). A field
  frame (`modifies db`users`) shows which table it may change. Its postcondition gives the
  response and the new table on every branch.
- `Login` is the `/api/auth/login` handler. It has no modifies clause, so no path changes
  a table. `HexEncoding` holds the lowercase-hex loop the handler applies to the SHA-256
  digest. It is proved against a specification function, with a decoder that round-trips.
- `DatabaseInitializer` is the seeding rule. `Configuration` is the fallback from
  environment variable to configuration value for the two start-up settings.
- `Models` has the entities and the data-annotation validators. They stand in for
  `ModelState.IsValid`.
- `DateTimes` treats a `DateTime` as a tick count (864,000,000,000 ticks per day), so
  `.Date` is truncation to the day.
- `Strings` is .NET's `IsNullOrWhiteSpace`.

The foreign primitives are function-valued parameters (`Crypto.Primitives`,
`Crypto.PasswordHasher`). Nothing is assumed about them except that a SHA-256 digest has
32 bytes. These primitives are UTF-8 encoding, SHA-256, ASP.NET Identity's
`IPasswordHasher<User>` and the JWT writer. The clock (`now`) and the JWT secret are
parameters of the login.

Login and user creation use different hashes. Login compares against the hex SHA-256 of
the password. User creation and seeding store the password hasher's output. The model
keeps the two functions apart. `Login.SeededAdminLogin` proves the seeded admin can log in
exactly when the two happen to agree on "password". `Login.ShortOrLongHashNeverMatches`
proves that a stored hash whose length is not 64 never matches.

## Model

| member | source | states |
|---|---|---|
| `Login.Login` | Program.cs:70-115 | A null or blank username or password gives BadRequest "Username and password are required". An unknown username gives BadRequest "Invalid username or password". A known user with a different stored hash gives the identical response. Ok holds exactly when the input is non-blank and a user with that exact username stores the hex SHA-256 of the UTF-8 password. The token is then written from Name = username, Role = role and expiry = now + 1 hour, signed with the UTF-8 key. No modifies clause, so no table changes. |
| `Login.PasswordDigest` | Program.cs:84-92 | The hash the handler computes for any password is a 64-character string of lowercase hex digits, so it always meets the PasswordHash annotation. |
| `Login.TokenFor` | Program.cs:100-112 | The token is the writer's output for the descriptor Name = username, Role = role, Expires = now + 1 hour, signed with the UTF-8 key. |
| `Login.TokenClaims` | Program.cs:102-108 | Users that agree on username and role get the same token; neither the Id nor the stored hash reaches it. |
| `Strings.IsNullOrWhiteSpace` | Program.cs:72 | A value that passes the test is present and has at least one character, and the empty string fails it. |
| `Login.ShortOrLongHashNeverMatches` | Program.cs:83-98 | If every user with the name has a stored hash whose length is not 64, the credentials never match, whatever the password. |
| `Login.SeededAdminLogin` | Data/DatabaseInitializer.cs:24-31 | Right after seeding an empty table, "admin"/"password" matches exactly when the hasher's output for "password" equals the hex SHA-256 digest of "password" (compared at Program.cs:95). |
| `HexEncoding.ToLowerHex` | Program.cs:87-92 | The StringBuilder loop returns LowerHex(bytes), the encoding whose layout, alphabet and inverse are proved below. |
| `HexEncoding.HexDigit` | Program.cs:90 | A nibble becomes a character in `0-9a-f`. |
| `HexEncoding.ByteToHex` | Program.cs:90 | `ToString("x2")` gives exactly two characters. |
| `HexEncoding.HexValue` | Program.cs:90 | Decoding a character succeeds exactly on `0-9a-f`, and it inverts HexDigit. |
| `HexEncoding.LowerHexAt` | Program.cs:88-91 | The encoding has length 2·n, and the characters at 2i and 2i+1 are byte i's high and low nibble. |
| `HexEncoding.LowerHexDigits` | Program.cs:90 | Every character of the encoding is in `0-9a-f`. |
| `HexEncoding.LowerHexSnoc` | Program.cs:88-91 | Appending a byte appends its two digits, which is the StringBuilder step. |
| `HexEncoding.DecodeEncode` | Program.cs:87-92 | Decoding the encoding gives back the input bytes. |
| `HexEncoding.EncodeDecode` | Program.cs:87-92 | Any string that decodes is the encoding of its decoded bytes, so the lowercase spelling is the only one that can match. |
| `HexEncoding.LowerHexInjective` | Program.cs:87-95 | Distinct digests have distinct encodings. |
| `HexEncoding.DigestFitsPasswordHash` | Program.cs:86-92 | The encoding of a SHA-256 digest has 64 characters and is not blank, so it fits the PasswordHash annotation. |
| `Configuration.Coalesce` | Program.cs:12-14 | `??`: the first non-null value, and null only when both are null. |
| `Configuration.Configure` | Program.cs:12-17 | Start-up succeeds exactly when each setting is present in the environment or in the configuration. The environment value wins. A missing connection string is reported first. |
| `Data.UsernameTaken` | Controllers/UsersController.cs:51 | Some user has exactly this name: the name is among the usernames of the table. |
| `Data.UsernameTakenByOther` | Controllers/UsersController.cs:83 | Some user with a different id has this name. For an id not in the table, this is the same as UsernameTaken. |
| `UsersController.GetUser` | Controllers/UsersController.cs:33-41 | Ok with the stored user, or NotFound when the id is absent. |
| `UsersController.HashedForCreate` | Controllers/UsersController.cs:55-58 | A non-blank PasswordHash field is replaced by the hasher's output for it. A blank one is kept. Id, username and role are untouched. |
| `UsersController.ValidCreateHashes` | Controllers/UsersController.cs:47-58 | After validation passes, creation always hashes. |
| `UsersController.PostUser` | Controllers/UsersController.cs:45-62 | An invalid body gives ValidationProblem. A username already in the table gives Conflict "Username already exists". Both leave the table unchanged. Otherwise exactly one user is added under a fresh id, uniqueness is kept, and the response is Created. |
| `UsersController.UpdatedUser` | Controllers/UsersController.cs:88-93 | Only Username, Role and (for a non-blank supplied value) PasswordHash change. The hasher sees the record with the new name and role already set. |
| `UsersController.PutUser` | Controllers/UsersController.cs:66-97 | Mismatched id gives BadRequest "Mismatched user id". An invalid body gives ValidationProblem. A missing id gives NotFound. All three change nothing. A name held by a different id gives Conflict. Otherwise only that user's entry is replaced by UpdatedUser, and the response is NoContent. |
| `UsersController.OwnUsernameNeverConflicts` | Controllers/UsersController.cs:83-86 | While usernames are unique, an update that keeps the user's own username never gets Conflict. |
| `UsersController.DeleteUser` | Controllers/UsersController.cs:101-111 | NotFound for a missing id. Otherwise exactly that user is removed. |
| `VendorsController.GetVendor` | Controllers/VendorsController.cs:30-38 | Ok with the stored vendor, or NotFound. |
| `VendorsController.PostVendor` | Controllers/VendorsController.cs:42-51 | A vendor with a blank Name, Address or Phone gives ValidationProblem and changes nothing. Otherwise exactly one vendor is added under a fresh id, existing vendors are unchanged, and the response is Created. |
| `VendorsController.PutVendor` | Controllers/VendorsController.cs:55-76 | Mismatched id gives BadRequest "Mismatched vendor id". Then a blank Name, Address or Phone gives ValidationProblem. Then a missing id gives NotFound. All three change nothing. Otherwise only that vendor record is replaced. |
| `VendorsController.DeleteVendor` | Controllers/VendorsController.cs:80-90 | NotFound for a missing id. Otherwise the vendor and every entry with its VendorId are removed. Other entries and the Users table are untouched. |
| `Data.CascadeDelete` | Data/AccountingContext.cs:22-26 | The entries that remain are exactly those of other vendors, unchanged. |
| `Data.CascadeKeepsReferences` | Data/AccountingContext.cs:22-26 | After the cascade, every remaining entry still references a remaining vendor. |
| `Data.AccountingContext.constructor` | Data/AccountingContext.cs:13-15 | Empty tables, every IDENTITY counter at 1, and the invariant holds. |
| `LedgerEntriesController.GetLedgerEntries` | Controllers/LedgerEntriesController.cs:24-43 | The request fails with ServerError exactly when `to` is on 9999-12-31, where the bound at line 39 throws. Otherwise the result is Ok with exactly the rows satisfying every supplied filter: the vendor id, and the day window from the `from` day to the `to` day, both included. An absent filter imposes nothing. No modifies clause, so the table does not change. |
| `LedgerEntriesController.Where` | Controllers/LedgerEntriesController.cs:28-41 | Each `Where` keeps exactly the rows its predicate accepts, unchanged. |
| `LedgerEntriesController.FromBoundIsWholeDay` | Controllers/LedgerEntriesController.cs:32-36 | `Date >= from.Date` holds exactly for entries on or after the day of `from`, whatever its time of day. |
| `LedgerEntriesController.ToBoundIsWholeDay` | Controllers/LedgerEntriesController.cs:37-41 | `Date <= end` holds exactly for entries on or before the day of `to`, so the whole `to` day is included. |
| `LedgerEntriesController.EndOfDay` | Controllers/LedgerEntriesController.cs:39 | The bound is the last tick of the `to` day. The next tick starts the following day. |
| `LedgerEntriesController.EndOfDayAsWritten` | Controllers/LedgerEntriesController.cs:39 | The bound as written throws exactly when the next midnight is past `DateTime.MaxValue`. Otherwise it is the tick just before the next midnight. |
| `LedgerEntriesController.EndOfDayAsWrittenThrowsOnLastDay` | Controllers/LedgerEntriesController.cs:39 | On 9999-12-31, `Date.AddDays(1)` is out of range, so the bound as written throws. |
| `LedgerEntriesController.EndOfDayAsWrittenBeforeLastDay` | Controllers/LedgerEntriesController.cs:39 | On every earlier day, the bound as written equals EndOfDay. |
| `LedgerEntriesController.EndOfDayAsWrittenCounterexample` | Controllers/LedgerEntriesController.cs:39 | Concretely, `to` = 9999-12-31 00:00 throws, where EndOfDay gives `DateTime.MaxValue`. |
| `LedgerEntriesController.GetLedgerEntry` | Controllers/LedgerEntriesController.cs:47-55 | Ok with the stored entry, or NotFound. |
| `LedgerEntriesController.PostLedgerEntry` | Controllers/LedgerEntriesController.cs:59-74 | An invalid body gives ValidationProblem. An unknown VendorId gives BadRequest "Vendor does not exist". Both leave the table unchanged. Otherwise exactly one entry is added under a fresh id, it references an existing vendor, and the foreign key is kept. |
| `LedgerEntriesController.PutLedgerEntry` | Controllers/LedgerEntriesController.cs:78-96 | Mismatched id gives a BadRequest without a message. An invalid body gives ValidationProblem. A missing id gives NotFound. Otherwise that one record is replaced. The vendor is not re-checked, so the foreign key is kept only when the new vendor exists. |
| `LedgerEntriesController.DeleteLedgerEntry` | Controllers/LedgerEntriesController.cs:100-110 | NotFound for a missing id. Otherwise exactly that entry is removed. |
| `DatabaseInitializer.SeededAdmin` | Data/DatabaseInitializer.cs:27-28 | The seeded record has Username "admin" and Role "Admin". Its PasswordHash is the hasher's output for "password", computed on the draft whose hash is still empty. |
| `DatabaseInitializer.SeedUsers` | Data/DatabaseInitializer.cs:24-31 | After seeding, the table is never empty. Every existing user is kept unchanged, and the only id that may be added is the next identity value. |
| `DatabaseInitializer.SeedEmpty` | Data/DatabaseInitializer.cs:24-31 | An empty table receives exactly one user, the admin. |
| `DatabaseInitializer.SeedIdempotent` | Data/DatabaseInitializer.cs:24 | A non-empty table is left unchanged, so seeding twice equals seeding once. |
| `DatabaseInitializer.SeededAdminValidity` | Data/DatabaseInitializer.cs:27-28 | The seeded admin passes the User annotations exactly when the hasher's output is a non-blank 64-character string. |
| `DatabaseInitializer.StartAsync` | Data/DatabaseInitializer.cs:18-32 | The Users table becomes SeedUsers of the old table. The counter advances only when the admin was added. No other table is in the frame. |
| `Models.UserValid` | Models/User.cs:9-19 | A valid user has a Username of 3 to 50 characters, a PasswordHash of exactly 64 and a Role of 1 to 20. |
| `Models.VendorValid` | Models/Vendor.cs:6-8 | A valid vendor has a non-empty Name, Address and Phone. |
| `Models.LedgerEntryValid` | Models/LedgerEntry.cs:9-24 | A valid entry has a positive Amount, a Type of 1 to 10 characters and a Description of 1 to 200. |
| `Models.UserValidityIgnoresId` | Models/User.cs:7-19 | Validity depends only on Username (non-blank, 3 to 50 characters), PasswordHash (non-blank, exactly 64) and Role (non-blank, at most 20). The Id is unconstrained. |
| `Models.VendorValidity` | Models/Vendor.cs:5-8 | Name, Address and Phone carry the implicit `[Required]` of non-nullable strings: a vendor is refused when any of them is empty or whitespace, accepted when all three have content, and the Id is unconstrained. |
| `Models.LedgerEntryValidity` | Models/LedgerEntry.cs:9-24 | VendorId and Date are unconstrained. An empty Type is refused, and so is an empty Description (implicit `[Required]`). A Description of 201 characters and an Amount below 0.01 are refused. |
| `DateTimes.Date` | Controllers/LedgerEntriesController.cs:34 | `.Date` is the midnight that starts the day of its argument. |
| `DateTimes.AddTicks` | Controllers/LedgerEntriesController.cs:39 | `AddTicks` succeeds exactly when the result is a representable `DateTime`. |
| `DateTimes.AddDays` | Controllers/LedgerEntriesController.cs:39 | `AddDays` succeeds exactly when the result is a representable `DateTime`. |
| `DateTimes.LastDay` | Controllers/LedgerEntriesController.cs:39 | The last representable day is 9999-12-31, and its last tick is `DateTime.MaxValue`. |
| `Scenarios.EntryNeedsItsVendor` | Controllers/LedgerEntriesController.cs:63-73 | On a fresh database, an entry for vendor 1 is refused with "Vendor does not exist". It is created once vendor 1 exists. |
| `Scenarios.DuplicateUsername` | Controllers/UsersController.cs:51-61 | Two creations with the same username give Created, then Conflict, leaving one user. |
| `Scenarios.CascadeOnDelete` | Controllers/VendorsController.cs:87 | Deleting vendor 1 removes its entry and keeps vendor 2's. |

## Left out

- EF Core itself is not modelled: async calls, `SaveChangesAsync`, `Include`/`AsNoTracking` and navigation loading. Responses carry the stored record without its `Vendor` navigation.
- LedgerEntriesController.GetLedgerEntry, LedgerEntriesController.PostLedgerEntry, LedgerEntriesController.GetLedgerEntries: response serialisation is not modelled. Loading `Vendor` (Controllers/LedgerEntriesController.cs:26, 49 and 72) also fixes up `Vendor.LedgerEntries` to contain the entry. Program.cs:20 calls `AddControllers()` without a reference handler, so System.Text.Json would throw on that cycle. The request would then fail with a server error. PostLedgerEntry would fail after its row is saved, and the list would fail whenever it is non-empty. None of this was executed. The model answers Ok or Created with the row.
- Login.Login: the token writer is assumed never to fail. An empty JWT secret makes `new SymmetricSecurityKey` throw (Program.cs:110). A secret shorter than the HMAC-SHA256 minimum (128 bits, or 256 bits in recent IdentityModel versions) makes `CreateToken` throw (Program.cs:112). Either way the login fails with a server error, not executed. `Configuration.Configure` accepts any secret, including the empty one.
- Row ids come from a per-table IDENTITY counter. Its 32-bit overflow is not modelled. A client-supplied non-zero `Id` on create is ignored here, although SQL Server would refuse an explicit identity value.
- The list endpoints `GetUsers` and `GetVendors` return a whole table, which in this model is the map itself. The rows' order in every list result, `GetLedgerEntries` included, is not modelled: a list result is the map of its rows by id.
- `DbUpdateConcurrencyException` is modelled only by its NotFound branch. The rethrow branch is a runtime error.
- LedgerEntriesController.PutLedgerEntry: the SQL foreign key would reject an entry whose vendor does not exist (an unhandled DbUpdateException). The model stores it, and says the foreign key is then not kept.
- Username equality is exact. A SQL Server collation may make the lookups in login and in the uniqueness checks case- or trailing-space-insensitive.
- Usernames are unique because the endpoints check them. The database has no unique index, and concurrent requests could race past the checks. Requests are sequential here.
- `[ApiController]` answers an invalid body with ValidationProblem before the action runs. The model follows the action's own order, so an id mismatch on an invalid body gives BadRequest here.
- Strings in request bodies are non-null, except the login fields; a null string fails the same implicit `[Required]` test as a blank one. That implicit `[Required]` assumes the models are compiled with nullable reference types enabled, as their `Vendor?` and `default!` annotations indicate; the project file is not part of this model.
- String lengths count Unicode scalar values. .NET counts UTF-16 code units, so a character outside the Basic Multilingual Plane counts twice there.
- `Amount` is an exact real. The `double.MaxValue` upper bound and the rounding of `decimal` to `double` at the 0.01 bound are not modelled.
- LedgerEntriesController.PostLedgerEntry, LedgerEntriesController.PutLedgerEntry: the model stores `Amount` exactly. No precision is configured for it, so EF Core maps it to a SQL Server `decimal(18,2)` column. A posted 12.345 would then be stored with two decimal places (12.34, as EF warns such values are silently truncated), and a later GET returns that value. An amount of 10^16 or more does not fit the column, so the save throws and the request fails with a server error. None of this was executed.
- SHA-256, UTF-8 encoding, `IPasswordHasher` (including its random salt) and JWT signing and serialisation are arbitrary function parameters. The token's expiry is kept in ticks. `DateTime.UtcNow` is the parameter `now`, and the overflow of `AddHours(1)` is not modelled.
- Not modelled, as host plumbing: migrations, dependency injection, CORS, Swagger, HTTPS redirection, the `[Authorize]` attributes and the JWT bearer middleware.
- Query values outside the `DateTime` range fail model binding. The `Ticks` type excludes them. `DateTimeKind` is ignored.
- VendorsController.PostVendor, LedgerEntriesController.PostLedgerEntry: EF graph inserts are not modelled. A vendor posted with nested ledger entries would insert those entries too. A ledger entry posted with a nested `vendor` object would insert that vendor and point `VendorId` at it, so the stored entry is not `entry.(id := …)` as the model states.
- UsersController.GetUser, UsersController.PostUser, UsersController.PutUser, UsersController.DeleteUser: the hasher is a parameter, so the model assumes one exists. As written, Program.cs registers no `IPasswordHasher<User>`, so the controller cannot be constructed and every users endpoint fails (not executed). ASP.NET Identity's default hasher also returns 84 characters, which would not fit the `nvarchar(64)` column that `[StringLength(64)]` gives PasswordHash, so saving would fail; the model stores whatever the hasher returns.
- DatabaseInitializer.StartAsync: the model always adds the admin to an empty table. As written, resolving `IPasswordHasher<User>` at Data/DatabaseInitializer.cs:26 throws because none is registered, so host start-up fails on an empty Users table (not executed). A registered default hasher would still hit the 64-character column limit described above.

## Findings

| source | as written | input that shows it | evidently intended | confidence | as-written member | corrected member |
|---|---|---|---|---|---|---|
| Controllers/LedgerEntriesController.cs:39 | `to.Value.Date.AddDays(1).AddTicks(-1)` leaves the `DateTime` range on the last representable day, so `AddDays` throws ArgumentOutOfRangeException and the request fails with a server error | `GET api/ledgerentries?to=9999-12-31` | include the whole `to` day, whose last tick is `DateTime.MaxValue` | not executed; medium | `LedgerEntriesController.EndOfDayAsWrittenCounterexample`, `LedgerEntriesController.GetLedgerEntries` (ServerError on that day) | `LedgerEntriesController.EndOfDay` (proved by `ToBoundIsWholeDay`; the bound `GetLedgerEntries` filters with on every other day, by `EndOfDayAsWrittenBeforeLastDay`) |

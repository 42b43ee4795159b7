# move-easy: validators and soft-delete repositories

This project models the data-access core of the move-easy transit backend in Dafny. It covers two parts:

- **The service-layer validators and guards** for contacts, addresses and shared vehicles (`validateContact`, `validateAddress`, `validateSharedVehicle`), and the service methods that check their input and then delegate to a repository.
- **The repositories' SQL statements**, replaced by operations on an in-memory table. Each table is a class holding a map from the SERIAL id to the row and a `nextId` counter that plays the role of the id sequence. Each row holds:
  - the owner id and the data columns;
  - `createdAt`;
  - an optional `updatedAt`;
  - an optional `deletedAt` (soft delete).

  Each statement's `WHERE` clause becomes a predicate on the map (`Matches`, `Active`, `HasAddress`, `UpdateMatches`).

Strings are sequences of runes (`seq<char>`), so `utf8.RuneCountInString` is the sequence length. `unicode.IsDigit` is modelled as Go defines it:
- within Latin-1, only `'0'..'9'`;
- above Latin-1, every decimal digit (category Nd) of Unicode 15.0.

Each validator's if-chain is proved against two independent statements of the same rules:
- a conjunctive `WellFormed` predicate, which says exactly which inputs pass;
- an ordered table of checks (`Checks`), run by `Validation.FirstViolation`, which says which error wins.

Every mutating repository operation is specified by a function on the table (`Updated`, `Deleted`, `Upsert`, `Relocated`). The lemmas about these functions state the lifecycle properties:
- a deleted contact is invisible and terminal;
- listings are unique up to order;
- each user keeps at most one address row;
- no shared-vehicle operation deletes a row.

The clock (`time.Now()`) is a parameter `now` of every method that writes a timestamp.

## Model

| member | source | states |
|---|---|---|
| Unicode.IsDigit | internal/contact/contactService.go:81-85 | every ASCII digit is a digit, and within Latin-1 nothing else is (non-ASCII Unicode digits above Latin-1 also pass) |
| Validation.FirstViolationIsEarliest | internal/contact/contactService.go:64-111 | running ordered checks passes iff no check fails, and otherwise reports the error of the earliest failing check |
| ContactService.ValidateContact | internal/contact/contactService.go:64-112 | returns (true, None) iff user id > 0, name has 3..100 runes, DDI and DDD are 3 digits, phone number is 9 digits; (false, None) never occurs |
| ContactService.ValidateContactReportsFirstFailure | internal/contact/contactService.go:65-109 | the error returned is the first failing check in the order user id, name, DDI, DDD, phone; per field emptiness before width/digits |
| ContactService.ValidateContactExamples | internal/contact/contactService_test.go:63-82 | the test's contact is accepted; with an empty name it is rejected with the name-empty error; user id 0 gives the user-id error |
| ContactService.ValidateContactDigitKinds | internal/contact/contactService.go:81-97 | Arabic-Indic digits are accepted as DDI digits; a 3-rune DDD with a letter is rejected as invalid |
| ContactService.Service.constructor | internal/contact/contactService.go:24-26 | the service wraps the given repository |
| ContactService.Service.SaveContact | internal/contact/contactService.go:28-33 | an invalid contact returns (0, the validator's error) and leaves the table unchanged; a valid one is inserted and its fresh id returned with no error |
| ContactService.Service.GetContact | internal/contact/contactService.go:35-40 | user id <= 0 gives the zero contact and the user-id error; otherwise exactly the repository's lookup result (contact id unchecked) |
| ContactService.Service.ListContacts | internal/contact/contactService.go:42-47 | user id <= 0 gives an empty list and the user-id error; otherwise a listing of the user's active contacts |
| ContactService.Service.UpdateContact | internal/contact/contactService.go:49-55 | an invalid contact returns (false, the validator's error) with no change; a valid one returns whether an active row matched, and the table is the repository's update |
| ContactService.Service.DeleteContact | internal/contact/contactService.go:57-62 | user id <= 0 or contact id <= 0 returns (false, the id error) with no change; otherwise the repository's soft delete |
| ContactRepository.Updated | internal/contact/contactRepository.go:108-124 | no row with another id changes, and with no active row matching (owner, id) the table is unchanged; owner, creation and deletion time never change; a matched row then reads back as the caller's contact with updatedAt = now |
| ContactRepository.Deleted | internal/contact/contactRepository.go:126-142 | no row with another id changes, and with no active match the table is unchanged; a matched row gets deletedAt = now and nothing else; afterwards (owner, id) no longer matches |
| ContactRepository.Repository.constructor | internal/db/tables.go:43-54 | an empty contacts table whose sequence starts at 1 |
| ContactRepository.Repository.SaveContact | internal/contact/contactRepository.go:28-40 | adds one active row with a fresh positive id and the caller's owner and fields (incoming id ignored) and returns that id |
| ContactRepository.Repository.GetContact | internal/contact/contactRepository.go:42-59 | returns the stored fields with ID = contactID and UserID = userID when an active row of that owner matches, else the zero contact |
| ContactRepository.Repository.ListContacts | internal/contact/contactRepository.go:68-95 | returns every active row of the owner exactly once, each with UserID = userID, and nothing else; empty when there are none |
| ContactRepository.Repository.UpdateContact | internal/contact/contactRepository.go:108-124 | returns true iff an active row matched (owner, id); the new table is Updated of the old |
| ContactRepository.Repository.DeleteContact | internal/contact/contactRepository.go:126-142 | returns true iff an active row matched; the new table is Deleted of the old |
| ContactRepository.SaveThenGet | internal/contact/contactRepository.go:28-58 | a saved contact reads back with its fresh id and the caller's fields; other rows are untouched |
| ContactRepository.DeleteIsTerminal | internal/contact/contactRepository.go:108-142 | after a delete: Get returns zero, no listing holds the row, a later update and a second delete change nothing |
| ContactRepository.ListingsArePermutations | internal/contact/contactRepository.go:69-95 | the order of a listing is unspecified but its contents are not: any two listings are permutations of each other |
| AddressService.ValidateAddress | internal/address/addressService.go:36-90 | returns (true, None) iff user id > 0, street, neighbourhood and city have 3..100 runes, number is non-empty digits, CEP is 8 digits, state has 2 runes; (false, None) never occurs |
| AddressService.ValidateAddressReportsFirstFailure | internal/address/addressService.go:37-87 | the error returned is the first failing check in the order user id, street, number, CEP, neighbourhood, city, state |
| AddressService.NumberInvalidOnlyForNonDigits | internal/address/addressService.go:47-57 | with earlier fields valid, the number is reported invalid iff it is non-empty and holds a non-digit (the `< 1` branch never fires) |
| AddressService.StateCharactersAreNotChecked | internal/address/addressService.go:83-87 | replacing a 2-rune state by any other 2-rune string never changes the outcome |
| AddressService.ValidateAddressExamples | internal/address/addressService_test.go:101-128 | the test's address is accepted, as is the lookup test's address with state "??"; the all-empty one fails on the street |
| AddressService.Service.constructor | internal/address/addressService.go:20-22 | the service wraps the given repository |
| AddressService.Service.GetAddress | internal/address/addressService.go:24-26 | no check: returns a possible repository lookup result and no error |
| AddressService.Service.AddOrUpdateAddress | internal/address/addressService.go:28-34 | an invalid address returns (0, the validator's error) with no change; a valid one gives exactly the repository's upsert |
| AddressRepository.Upsert | internal/address/addressRepository.go:44-84 | with no row for the user: adds exactly one active row under the fresh id, created at now with no update time, and returns that id; else, if the incoming id names a row of the user: overwrites that row's fields and returns the incoming id; else returns 0 with no change; never touches other rows, owners or timestamps |
| AddressRepository.Repository.constructor | internal/db/tables.go:23-36 | an empty address table whose sequence starts at 1 |
| AddressRepository.Repository.GetAddress | internal/address/addressRepository.go:24-42 | returns some row of the user (deleted or not) with its id and fields, else the zero address |
| AddressRepository.Repository.AddOrUpdateAddress | internal/address/addressRepository.go:44-84 | read then insert or update; the new table, sequence and returned id are Upsert of the old |
| AddressRepository.UpsertKeepsOneAddressPerUser | internal/address/addressRepository.go:45-59 | if every user has at most one address row before, the same holds after |
| AddressRepository.UpsertWithoutIdLeavesStoredAddress | internal/address/addressRepository.go:61-78 | a second upsert with incoming id 0 returns 0 and leaves the stored street unchanged |
| AddressRepository.IntendedUpsert | internal/address/addressRepository.go:44-84 | corrected upsert: the update targets the row the lookup found |
| AddressRepository.IntendedUpsertTwice | internal/address/addressRepository.go:44-84 | with the corrected upsert, two calls for one user leave one row for that user, holding the second call's fields under the first call's id |
| SharedVehicleService.ValidateSharedVehicle | internal/sharedVehicle/sharedVehicleService.go:47-56 | returns (true, None) iff user id > 0 and vehicle type >= 0 (type 0 passes); (false, None) never occurs |
| SharedVehicleService.ValidateSharedVehicleReportsFirstFailure | internal/sharedVehicle/sharedVehicleService.go:48-53 | the user-id check runs before the type check |
| SharedVehicleService.Service.constructor | internal/sharedVehicle/sharedVehicleService.go:21-23 | the service wraps the given repository |
| SharedVehicleService.Service.InsertSharedVehicle | internal/sharedVehicle/sharedVehicleService.go:25-30 | an invalid vehicle returns (0, the validator's error) with no change; a valid one is inserted and its fresh id returned |
| SharedVehicleService.Service.ListAllSharedVehicles | internal/sharedVehicle/sharedVehicleService.go:32-34 | no check: a listing of all active vehicles |
| SharedVehicleService.Service.GetSharedVehicle | internal/sharedVehicle/sharedVehicleService.go:36-38 | no check: the repository's lookup result |
| SharedVehicleService.Service.UpdateSharedVehicleLocation | internal/sharedVehicle/sharedVehicleService.go:40-45 | an invalid vehicle returns (false, the validator's error) with no change; a valid one gives exactly the repository's update |
| SharedVehicleRepository.Lookup | internal/sharedVehicle/sharedVehicleRepository.go:37-52 | ID and UserID are zero even on success; a missing or deleted id gives the zero vehicle |
| SharedVehicleRepository.Relocated | internal/sharedVehicle/sharedVehicleRepository.go:99-115 | only the active row with that id changes, with no owner check: user id and location are set, reportedAt and updatedAt become now, the type and creation time are kept; a missing or deleted id changes nothing; no row's active status changes |
| SharedVehicleRepository.Repository.constructor | internal/db/tables.go:60-71 | an empty shared_vehicle table whose sequence starts at 1 |
| SharedVehicleRepository.Repository.InsertSharedVehicle | internal/sharedVehicle/sharedVehicleRepository.go:27-35 | adds one active row with a fresh id, the caller's owner, location and type, reportedAt = now (incoming ID and ReportedAt ignored) |
| SharedVehicleRepository.Repository.GetSharedVehicle | internal/sharedVehicle/sharedVehicleRepository.go:37-52 | returns Lookup of the table |
| SharedVehicleRepository.Repository.ListAllSharedVehicles | internal/sharedVehicle/sharedVehicleRepository.go:60-86 | returns every active row exactly once, with its id but UserID zero, and nothing else; empty when there are none |
| SharedVehicleRepository.Repository.UpdateSharedVehicleLocation | internal/sharedVehicle/sharedVehicleRepository.go:99-115 | returns true iff an active row has that id; the new table is Relocated of the old |
| SharedVehicleRepository.ActiveRowsOnlyGrow | internal/sharedVehicle/sharedVehicleRepository.go:12-17 | insert keeps every active row active and adds one; update changes no row's status |
| SharedVehicleRepository.RelocateTakesOwnership | internal/sharedVehicle/sharedVehicleRepository.go:103-104 | an update by another user succeeds and makes that user the owner |

## Findings

| source | as written | input that shows it | evidently intended | confidence | as-written member | corrected member |
|---|---|---|---|---|---|---|
| internal/address/addressRepository.go:61-78 | the update after a successful lookup matches `WHERE id = address.ID AND user_id = address.UserID`, using the id the caller sent, and returns 0 when that matches nothing | stored row 10 owned by user 1. The caller sends Address{ID: 0, UserID: 1, Street: "Rua B", ...}, as the handler builds it when the body has no id. The result is 0 and the street stays "Rua A" | update the row the lookup found (`addressDB.ID`) and return its id | medium, not executed | AddressRepository.UpsertWithoutIdLeavesStoredAddress | AddressRepository.IntendedUpsertTwice |

The repository and the service keep the as-written behaviour, because that is what the code does. `IntendedUpsert` is the corrected definition, given beside it.

## Left out

- Database driver and engine errors: the in-memory table never fails. So the error returns of every statement are not modelled, including a lookup error other than no-rows in `AddOrUpdateAddress` (internal/address/addressRepository.go:45-48) and the scan errors in the list loops.
- The deadline race in `ListContacts` and `ListAllSharedVehicles` is not modelled. This covers the goroutine, the channels, `select`, and the 5 s and 2 s timeouts. Only the successful result value is modelled.
- Concurrency between callers is not modelled. In particular, the address upsert's unlocked read-then-write is modelled as one atomic step.
- `time.Now()` is a parameter `now`. `Time` is an integer, and 0 stands for the zero `time.Time{}`. All clock reads of one statement are merged into this one value. These are the engine's `NOW()` defaults for `created_at` (internal/db/tables.go:67-68) and the two separate `time.Now()` calls that fill `reported_at` and `updated_at` (internal/sharedVehicle/sharedVehicleRepository.go:104). In the code these can differ by a few instants.
- Latitude and longitude are float64 values that are only stored. They are kept as their 64-bit patterns, with no floating-point semantics.
- Ids are unbounded integers. The 64-bit `int64` range and the 32-bit range of SERIAL are not modelled, and neither is sequence exhaustion.
- The `CreatedAt`, `Updated`/`UpdatedAt` and `DeletedAt` fields of the `Contact` and `Address` value types are left out. No read fills them. The rows keep all three timestamps.
- Unicode.IsDigit: digits are those of Unicode 15.0 (the tables of the Go releases current with this code). Later Unicode versions are not modelled.
- AddressRepository.Repository.GetAddress: when a user has several rows, it promises only that one of them is returned, not which one. The engine's row order is not modelled.
- The HTTP handlers, routes, middleware, the user and bus packages, database setup, path utilities and the logger are outside this model. `internal/sharedVehicle/sharedVehiclRepository.go` is also outside it, because it is an unfinished duplicate that does not compile.
- The `VehicleType` declaration is not part of this model. It is taken to be an integer type, as the `< ZERO` comparison requires.

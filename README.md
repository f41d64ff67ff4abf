# Credential service and rental calculator, modelled in Dafny

This project models two parts of the repository.

**The credential service.** This is `AuthService` in `Serverample/Services/AuthService.cs`, together with the `User` record it stores (`Serverample/Data/Model.cs`).
- Registration refuses a username or an email that is already stored. Otherwise it saves an active user whose password hash is the digest of the password followed by the fixed string `"salt123"`.
- Login returns the first active user with the given username, and only if the password hashes to that user's stored hash.
- The existence check says whether any stored user has the username or the email.

The store is the class `Auth.AuthService`:
- the table is a sequence of `User` values;
- the store's generated ids are a counter;
- each call takes a `fault` flag that says whether the store's database access fails during that call.

The object invariant `Valid()` says:
- no two users share a username;
- no two users share an email;
- ids are positive, distinct, increasing and below the counter.

The constructor establishes the invariant and every registration keeps it. String comparison is exact, matching C#'s ordinal, case-sensitive `==`.

**The rental calculator.** This is `OOPConsole2/Program.cs`. `Vehicle` holds a brand and a number of hours. `Car` and `Motorcycle` charge `hoursRented * rate`, with rates 1300 and 500. `Car` and `Motorcycle` differ only in their rate, so one class `Rental.Vehicle` with a constant `kind` and a constant `rate` carries both. C# `int` is 32 bits and wraps silently on overflow, so `Int32` is a newtype, `Wrap` does the wrap-around explicitly, and the exact-product statements hold up to `MaxHours`.

Modules:
- `Wrappers`: `Option` (a C# `null` result) and `Outcome` (an exception that escapes).
- `Passwords`: hashing and verification.
- `Users`: the record and its annotations.
- `UserTable`: the queries, as functions of the table, plus lemmas.
- `Auth`: the service class and a client scenario.
- `Rental`: the calculator.

Three facts about the code, which the model follows:
- Registration has no separate outcome for invalid input. The code never checks for empty fields.
- Login returns `null` both when no active user has the name and when the password is wrong.
- Inserting a user does not check uniqueness again. The only check is the lookup before the insert.

## Model

| member | source | states |
|---|---|---|
| `Passwords.HashPassword` | Serverample/Services/AuthService.cs:89-96 | the stored form of a password: the digest of the password followed by the fixed salt `"salt123"` |
| `Passwords.VerifyPassword` | Serverample/Services/AuthService.cs:98-102 | verification is equality of hashes: the hash of the given password compared ordinally with the stored hash |
| `Passwords.VerifyAcceptsOwnHash` | Serverample/Services/AuthService.cs:89-102 | a password always verifies against its own hash |
| `Passwords.SaltedInjective` | Serverample/Services/AuthService.cs:93 | appending the fixed salt `"salt123"` maps different passwords to different digest inputs |
| `Passwords.VerifyIffSamePassword` | Serverample/Services/AuthService.cs:89-102 | with a collision-free digest, a password verifies against the hash of another password iff the two are equal |
| `Users.NewUser` | Serverample/Data/Model.cs:5-24 | a new record has empty username, email and hash, is active, is stamped with the current time, and fails validation |
| `Users.HasContent` | Serverample/Data/Model.cs:9-19 | `[Required]` on a string: it has at least one character that is not white space |
| `Users.IsEmailAddress` | Serverample/Data/Model.cs:14 | `[EmailAddress]`: exactly one '@', which is neither the first nor the last character |
| `Users.IsValid` | Serverample/Data/Model.cs:9-19 | a user passes every annotation: username and email required, at most 50 and 100 characters, the email address-shaped, the hash required |
| `Users.ValidUserShape` | Serverample/Data/Model.cs:9-19 | a valid user has a username of 1 to 50 characters, an email of 3 to 100 characters with an '@' that is neither first nor last, and a non-empty hash |
| `UserTable.FindActive` | Serverample/Services/AuthService.cs:60-61 | the login query finds the first position whose user has the username and is active, or reports that no position does |
| `UserTable.LoginResult` | Serverample/Services/AuthService.cs:60-74 | a login without a store fault succeeds iff the first active user with that name has the hash of the given password, and then it returns that user |
| `UserTable.AppendKeepsUnique` | Serverample/Services/AuthService.cs:22-44 | appending a user that matches no stored user by name or email keeps names and emails unique |
| `UserTable.AppendKeepsIds` | Serverample/Data/Model.cs:7 | saving under the next id keeps ids positive, increasing and below the counter |
| `UserTable.IdsIdentify` | Serverample/Data/Model.cs:7 | assigned ids identify users: two stored users with the same id are the same entry |
| `UserTable.UniqueFirstActive` | Serverample/Services/AuthService.cs:60-61 | in a unique table the login query finds exactly the active user with that name |
| `UserTable.LoginInUniqueTable` | Serverample/Services/AuthService.cs:60-74 | in a unique table a login succeeds iff some active user with that name stores the hash of the password |
| `UserTable.InactiveNeverLogsIn` | Serverample/Services/AuthService.cs:60-66 | in a unique table a deactivated user never logs in, even with the correct password |
| `UserTable.LoginAfterRegister` | Serverample/Services/AuthService.cs:31-72 | after a registration that passed the uniqueness check, logging in with that name and password returns the new user |
| `UserTable.WrongPasswordAfterRegister` | Serverample/Services/AuthService.cs:31-74 | after that registration, with a collision-free digest, logging in with any other password returns null |
| `Auth.AuthService.constructor` | Serverample/Services/AuthService.cs:12-15 | a service over a freshly created database (the `EnsureCreated` call at Serverample/Program.cs:30 creates it empty): no users, next id 1, the invariant established. The scenario's id 1 depends on this |
| `Auth.AuthService.Register` | Serverample/Services/AuthService.cs:17-53 | returns true iff there is no store fault and no stored user has the username or the email. On true, exactly one user is appended: the given name and email, the salted hash, the time, active, the next id. On false, nothing changes. The invariant is kept, and the new user can log in |
| `Auth.AuthService.Login` | Serverample/Services/AuthService.cs:55-81 | null on a store fault, otherwise the login result. A returned user is stored, active, has the name and stores the hash of the password. When the store invariant holds, a login succeeds iff some active user with that name stores the hash of the password. The store is not modified |
| `Auth.AuthService.UserExists` | Serverample/Services/AuthService.cs:83-87 | without a fault, returns whether some stored user has the username or the email; a fault propagates as an exception |
| `Auth.AliceScenario` | Serverample/Services/AuthService.cs:17-87 | register succeeds once; a second use of the name or of the email is refused; the existence check sees the email; a wrong password is refused; the right one returns the user with id 1 |
| `Rental.Wrap` | OOPConsole2/Program.cs:27 | unchecked 32-bit arithmetic: the result is congruent to the exact value modulo 2^32 and equals it when it fits |
| `Rental.MaxHours` | OOPConsole2/Program.cs:19-41 | the largest hour count whose cost fits in an `int` at each rate |
| `Rental.RateOf` | OOPConsole2/Program.cs:19-32 | the fixed hourly rate of each kind: 1300 for a car, 500 for a motorcycle |
| `Rental.Vehicle.constructor` | OOPConsole2/Program.cs:4-32 | a new car has rate 1300, a new motorcycle rate 500, zero hours and no brand |
| `Rental.Vehicle.SetData` | OOPConsole2/Program.cs:8-12 | overwrites brand and hours with the arguments; kind and rate cannot change |
| `Rental.Vehicle.CalculateRental` | OOPConsole2/Program.cs:25-41 | hours times rate modulo 2^32; exact when the product fits; 0 for zero hours; changes no field |
| `Rental.RentalAtRate` | OOPConsole2/Program.cs:19-41 | within the bound, a car costs hours * 1300 and a motorcycle hours * 500, never negative |
| `Rental.RentalMonotone` | OOPConsole2/Program.cs:27-40 | for one kind and non-negative hours within the bound, cost does not decrease as hours grow |
| `Rental.CarRentalWraps` | OOPConsole2/Program.cs:25-28 | one hour past the bound, the cost of a car wraps to a negative value |
| `Rental.RentalProgram` | OOPConsole2/Program.cs:45-62 | the entry point's four rentals cost 6500 (Toyota), 10400 (Ferarri), 1500 (Yamaha) and 3000 (Mio) |

## Left out

- SHA-256, the UTF-8 encoding and the Base64 rendering in `HashPassword` are library calls. They are one deterministic function `digest`, passed as a parameter. Collision-freedom is a `requires Injective(digest)` on the lemmas about wrong passwords (`Passwords.VerifyIffSamePassword`, `UserTable.WrongPasswordAfterRegister`) and on `Auth.AliceScenario`. No fixed-length digest, SHA-256 rendered in Base64 included, is injective on all strings, so those statements hold for an ideal hash only. "A hash never equals its password" is not stated, because it depends on the real algorithm.
- async/await, Entity Framework Core queries and `SaveChangesAsync`, and the `Console.WriteLine` in the exception handlers are plumbing and output. A store exception is the `fault` argument of each call.
- Register: the `fault` flag does not separate a fault in the lookup from a fault in the save. Both return false with the table unchanged. If `SaveChangesAsync` fails, the entity stays tracked by the context, and a later save would store it. That is not modelled.
- The check-then-insert race between concurrent registrations is not modelled. The model is sequential.
- `DateTime.UtcNow` is a clock. The creation time is the `now` argument.
- `Serverample/Data/AppDbContext.cs` declares no `Users` set. The store is modelled abstractly, not as an Entity Framework context.
- Register does not check the record's annotations, because the code does not. Entity Framework Core does not validate data annotations on save, and SQLite does not enforce string lengths. So a registered user may fail `Users.IsValid`.
- `Users.IsValid`: lengths are counted in Unicode scalar values, not in C#'s UTF-16 code units. The two differ only for characters outside the Basic Multilingual Plane.
- `null` strings are not modelled. Every string argument is a value, and a vehicle's brand starts as the empty string in place of `null`.
- Ids and the id counter are unbounded integers. The wrap of the 32-bit `Id` after 2^31 registrations is not modelled.
- `DisplayInfo` in `OOPConsole2/Program.cs` only prints.
- Not part of this model: `Serverample/Program.cs` and `Crudample/Program.cs` (dependency injection, the HTTP pipeline, database creation), both `AppDbContext.cs` files (context boilerplate), `OOPConsole3/Program.cs` and `Prelim/ConsoleApp/Encapsulation.cs` (floating point and output), and `OOPConsole/Program.cs` and the `ConsoleApp/*.cs` snippets (console output and trivial constructors).

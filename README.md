# AtonWebAPI user management, modelled in Dafny

AtonWebAPI is an ASP.NET Core web API that manages user accounts. This project models its core:

- the `User` entity;
- the registration form, its validation attributes and `DateNotInFuture`;
- the user store and the user service over it;
- the Basic authentication handler, which seeds an `admin` account and turns an `Authorization` header into claims;
- the ten actions of `UsersController`.

Modules, one per source area:

- `Optional`: the `Option` datatype, which stands for nullable values.
- `FieldRules`: the character classes of the regular-expression attributes, `[Range(0, 2)]` on the gender, and `DateNotInFutureAttribute.IsValid`.
- `Users`: the mutable `User` class, its value `UserRecord`, and the invariant the store keeps.
  - The store invariant: logins are unique, credentials are non-empty Latin letters and digits, and `RevokedOn`/`RevokedBy` are set and cleared together.
- `Registrations`: the registration form, the set of fields its attributes reject, and `CreateUserByGivenData`.
- `Service`: `UserStore`, a class holding the stored `User` objects in a `seq`, with the service queries and updates.
  - LINQ queries become recursive functions over the records: `FirstOrDefault` and `SingleOrDefault` searches, `Where`, and `OrderBy` as a stable insertion sort.
- `Authentication`: header parsing after the library calls, the credential lookup, the claims issued, the admin seeding done by the handler's constructor, and the corrected handler described under Findings.
- `Controller`: the actions of `UsersController`. Each is a method (when it changes the store) or a function (when it only reads it) of the class `Controller.UsersController`, and answers a `Response` in place of an HTTP result. The age guard of `RequestUsersOverSpecifiedAge` reads no state and is a module-level function.

Times are integer ticks. The current time, the new `Guid` and the authenticated caller are parameters. A new `Guid` is one that no stored user holds, and the store invariant keeps `Guid`s unique.

Where the code differs from the system's stated requirements, the model follows the code. It also fills in service operations that the code calls but does not define:

- Authentication does not reject revoked accounts.
- `RequestByLogin` reports an account as active when `RevokedBy` is null, not when `RevokedOn` is null.
- `Register` validates the form before the Administrator check (UsersController.cs:69-79). A non-administrator's invalid form with `Admin = true` gets `Invalid(fields)`, not Forbidden.
- `ChangeLogin` answers Conflict when any user holds the new login (UsersController.cs:211). That includes the target's own unchanged login and revoked accounts, not only other active accounts.
- `RequestPersonalProfile` is documented (UsersController.cs:255-256) as available to the user only while the account is active. Lines 268-278 never read `RevokedOn`, so a revoked user still gets the profile.
- No `User` role claim is issued anywhere (BasicAuthenticationHandler.cs:70-80). As written, the `[Authorize(Roles = "User")]` actions (UsersController.cs:101, 146, 186, 261) therefore admit no caller. `Authentication.AdministratorClaimDropped` proves that no principal has any role. The controller model describes these actions as they behave once a caller is admitted. See "## Findings".
- `HasUserWithRequiredLoginAsync`, `UpdateUserData`, `UpdateUserPassword`, `UpdateUserLogin`, `MarkUserAsModified` and `DeleteUserAsync` are called by the controller but have no body in the service source. Their models follow their names and the controller's doc comments:
  - a soft delete stamps `RevokedOn` and `RevokedBy`;
  - `UpdateUserData` may change only the name, the gender and the birthday, to values left open.

## Model

| member | source | states |
|---|---|---|
| FieldRules.DateNotInFuture | AtonSolution/AtonWebAPI/Models/Validations/DateNotInFutureAttribute.cs:8-21 | A date passes exactly when it is strictly earlier than now. A failure carries the "Birthday cannot be in the future" message. Null and non-date values always pass. |
| Users.User.constructor | AtonSolution/AtonWebAPI/Models/User.cs:9-43 | A new user holds the five required members as given. Gender is 2, Admin is false, and every nullable field is null. |
| Registrations.InvalidFields | AtonSolution/AtonWebAPI/Models/Validations/Registration.cs:20-39 | Each field is reported exactly when its attribute rejects it: login and password non-empty Latin/digits, name non-empty Latin/Cyrillic, gender in 0..2, birthday not in the future. The set is empty exactly when the form is valid. |
| Registrations.BuiltFromValidIsWellFormed | AtonSolution/AtonWebAPI/Models/Validations/Registration.cs:7-18 | A user built from a valid form satisfies the store's record rules and is active. |
| Registrations.CreateUserByGivenData | AtonSolution/AtonWebAPI/Models/Validations/Registration.cs:7-18 | The new object copies the six form fields and is stamped as created now by the creator. Nothing is modified or revoked. |
| Service.FindLogin | AtonSolution/AtonWebAPI/BasicAuthenticationHandler.cs:27 | Returns the first position holding the login. It is absent exactly when no record holds the login. |
| Service.FindCredentials | AtonSolution/AtonWebAPI/BasicAuthenticationHandler.cs:63 | Returns the first position holding both the login and the password. It is absent exactly when no record holds both. |
| Service.CredentialsMatchLoginRecord | AtonSolution/AtonWebAPI/Services/UserService.cs:35-39 | With unique logins, the login-and-password query finds a user exactly when the login's record has that password, and then it finds that same record. |
| Service.ActiveOf | AtonSolution/AtonWebAPI/Services/UserService.cs:22 | Every record with no RevokedOn is kept as many times as it occurs. No other record is kept. |
| Service.ChainedIsSorted | AtonSolution/AtonWebAPI/Services/UserService.cs:23 | When each record is created no later than the next, the whole sequence is ordered by CreatedOn. |
| Service.InsertByCreatedOn | AtonSolution/AtonWebAPI/Services/UserService.cs:23 | Inserting into an ordered sequence keeps it ordered and adds exactly the one record. |
| Service.SortByCreatedOn | AtonSolution/AtonWebAPI/Services/UserService.cs:23 | The result is ordered by CreatedOn and is a permutation of the input. |
| Service.UserStore.constructor | AtonSolution/AtonWebAPI/Models/StorageContext.cs:9 | A new store is empty and satisfies the store invariant. |
| Service.UserStore.Records | AtonSolution/AtonWebAPI/Services/UserService.cs:15-18 | Lists every stored user's current values, in store order. |
| Service.UserStore.GetActiveUsers | AtonSolution/AtonWebAPI/Services/UserService.cs:20-24 | Returns the active users (no RevokedOn), none dropped and none added, ordered by CreatedOn. |
| Service.UserStore.GetUserByLogin | AtonSolution/AtonWebAPI/Services/UserService.cs:35-36 | Given unique logins, returns a stored user holding the login exactly when one exists. |
| Service.UserStore.GetUserByLoginAndPassword | AtonSolution/AtonWebAPI/Services/UserService.cs:38-39 | Returns a stored user holding both the login and the password exactly when one exists. |
| Service.UserStore.Authenticate | AtonSolution/AtonWebAPI/Services/UserService.cs:26-27 | The same query as GetUserByLoginAndPassword, with the same result. |
| Service.UserStore.HasUserWithRequiredLogin | AtonSolution/AtonWebAPI/Controllers/UsersController.cs:80 | True exactly when some stored user, active or revoked, holds the login. |
| Service.UserStore.AddUser | AtonSolution/AtonWebAPI/Services/UserService.cs:29-33 | The user is appended after all existing users, and one saved entry is reported. |
| Service.UserStore.UpdateUserData | AtonSolution/AtonWebAPI/Controllers/UsersController.cs:133 | Only the name, the gender and the birthday of the user may change. |
| Service.UserStore.UpdateUserPassword | AtonSolution/AtonWebAPI/Controllers/UsersController.cs:172 | Only the password changes, to the given one. |
| Service.UserStore.UpdateUserLogin | AtonSolution/AtonWebAPI/Controllers/UsersController.cs:216 | Only the login changes, to the given one. |
| Service.UserStore.MarkUserAsModified | AtonSolution/AtonWebAPI/Controllers/UsersController.cs:135 | Only ModifiedOn and ModifiedBy change, to now and the modifier. |
| Service.UserStore.DeleteUser | AtonSolution/AtonWebAPI/Controllers/UsersController.cs:298-318 | A hard delete removes the login's record and keeps the rest in order. A soft delete stamps that record's RevokedOn and RevokedBy and changes nothing else. An unknown login changes nothing. The store invariant is kept. The stored objects stay the same, minus the removed one after a hard delete. |
| Service.UserStore.RemoveAt | AtonSolution/AtonWebAPI/Controllers/UsersController.cs:303 | Removes exactly the record, and the object, at the position, and keeps the store invariant. |
| Service.UserStore.RevokeAt | AtonSolution/AtonWebAPI/Controllers/UsersController.cs:299-300 | Stamps the revocation on exactly the record at the position and keeps the store invariant. |
| Authentication.SplitAtFirstColon | AtonSolution/AtonWebAPI/BasicAuthenticationHandler.cs:59-61 | Text without a colon stays one part. Otherwise there are two parts: a colon-free prefix, and the rest after the first colon, which rebuild the text. |
| Authentication.SplitRecoversCredentials | AtonSolution/AtonWebAPI/BasicAuthenticationHandler.cs:59-61 | Splitting `login:password` with a colon-free login gives back exactly the login and the password, colons in the password included. |
| Authentication.PrefixBeforeColonIsUnique | AtonSolution/AtonWebAPI/BasicAuthenticationHandler.cs:59 | A text has only one decomposition into colon-free prefix, colon and rest. |
| Authentication.Verify | AtonSolution/AtonWebAPI/BasicAuthenticationHandler.cs:50-68 | No header gives no result. An unparsable header or a text without a colon is an invalid header. Unknown credentials are invalid credentials. Otherwise the first user matching both login and password is chosen. Revocation is not checked. |
| Authentication.Authenticate | AtonSolution/AtonWebAPI/BasicAuthenticationHandler.cs:48-92 | No result exactly when there is no header, and failure exactly when verification rejects, with its reason. Success carries only the login and name claims. |
| Authentication.PrincipalOf | AtonSolution/AtonWebAPI/BasicAuthenticationHandler.cs:82-83 | The principal is in a role exactly when a role claim for it was issued. Its login is the value of the first NameIdentifier claim (what `FindFirst` returns), or empty when there is none. |
| Authentication.CredentialsAuthenticate | AtonSolution/AtonWebAPI/BasicAuthenticationHandler.cs:57-86 | Every stored account, revoked or not, authenticates with its own login and password. It receives exactly its login and name as claims, and the principal's identifier is its login. |
| Authentication.AdministratorClaimDropped | AtonSolution/AtonWebAPI/BasicAuthenticationHandler.cs:76-80 | As written, no successful authentication ever yields a principal with a role. |
| Authentication.AuthenticateIntended | AtonSolution/AtonWebAPI/BasicAuthenticationHandler.cs:76-80 | Same outcomes as the handler: no result exactly when there is no header, and failure exactly when verification rejects, with the same reason. A success carries the login and name, the User role, and the Administrator role for an admin. |
| Authentication.IntendedAdministratorRole | AtonSolution/AtonWebAPI/BasicAuthenticationHandler.cs:70-83 | With the role claims kept, every stored account authenticates with its own credentials. Its principal carries its login and is in the User role. It is an Administrator exactly when its account is an admin. |
| Authentication.SeedAdminIsWellFormed | AtonSolution/AtonWebAPI/BasicAuthenticationHandler.cs:31-41 | The seed account (admin/admin123) satisfies the store's record rules. |
| Authentication.NewSeedAdmin | AtonSolution/AtonWebAPI/BasicAuthenticationHandler.cs:31-41 | A new object holding the seed account's values. |
| Authentication.Seeded | AtonSolution/AtonWebAPI/BasicAuthenticationHandler.cs:27-45 | After seeding, some user is called admin. An existing admin leaves the store unchanged; otherwise the seed account is appended. |
| Authentication.SeedingIsIdempotent | AtonSolution/AtonWebAPI/BasicAuthenticationHandler.cs:27-45 | Seeding a second time changes nothing. |
| Authentication.BasicAuthenticationHandler.constructor | AtonSolution/AtonWebAPI/BasicAuthenticationHandler.cs:17-46 | The store becomes its seeded form and keeps its invariant. The stored objects are the old ones, possibly followed by one new object. |
| Authentication.BasicAuthenticationHandler.HandleAuthenticate | AtonSolution/AtonWebAPI/BasicAuthenticationHandler.cs:48-92 | Reads the store without changing it. No result exactly when there is no header. Failure exactly when verification rejects, with its reason. Success carries exactly the verified user's login and name claims. |
| Controller.CreatorLogin | AtonSolution/AtonWebAPI/Controllers/UsersController.cs:74-85 | The caller's login, or the empty string for an anonymous caller. |
| Controller.ProfileParameterErrors | AtonSolution/AtonWebAPI/Controllers/UsersController.cs:107-114 | Each supplied parameter is reported exactly when its attribute rejects it. An empty name is allowed. |
| Controller.RequestUsersOverSpecifiedAge | AtonSolution/AtonWebAPI/Controllers/UsersController.cs:288-296 | A non-positive age gets "Age must be greater than zero". A positive age goes on to the age query. |
| Controller.UsersController.constructor | AtonSolution/AtonWebAPI/Controllers/UsersController.cs:17-20 | The controller works on the given store. |
| Controller.UsersController.Register | AtonSolution/AtonWebAPI/Controllers/UsersController.cs:66-90 | Checks run in source order: invalid form gives the rejected fields; an admin flag from a non-administrator is Forbidden; an existing login is a Conflict. Otherwise exactly one record built from the form, with the new Guid, is appended as one new object, and the invariant holds. Every other outcome leaves the stored objects and records unchanged. |
| Controller.UsersController.ChangeProfileData | AtonSolution/AtonWebAPI/Controllers/UsersController.cs:101-137 | Checks run in source order: invalid parameters, NotFound, Forbidden unless the caller is an administrator or the target's own active account. On Ok only the target's profile and modification stamp change; every other outcome leaves the store unchanged. |
| Controller.UsersController.ChangePassword | AtonSolution/AtonWebAPI/Controllers/UsersController.cs:146-176 | Checks run in source order: invalid password, NotFound, Forbidden. On Ok only the target's password and modification stamp change; every other outcome leaves the store unchanged. |
| Controller.UsersController.ChangeLogin | AtonSolution/AtonWebAPI/Controllers/UsersController.cs:186-220 | Checks run in source order: invalid login, NotFound, Forbidden, and Conflict when any user holds the new login. On Ok only the target's login and stamp change; logins stay unique. |
| Controller.UsersController.RequestByLogin | AtonSolution/AtonWebAPI/Controllers/UsersController.cs:238-252 | NotFound exactly when no user holds the login. Otherwise returns that user's name, gender, birthday and `RevokedBy == null`. |
| Controller.UsersController.RequestPersonalProfile | AtonSolution/AtonWebAPI/Controllers/UsersController.cs:261-279 | Returns the profile exactly when the credentials match a user and are the caller's own. When the caller's own account is missing, the unchecked dereference faults. Otherwise the answer is NotFound. |
| Controller.UsersController.DeleteUser | AtonSolution/AtonWebAPI/Controllers/UsersController.cs:306-321 | NotFound exactly when no user holds the login, with the store unchanged. Otherwise Ok, with the record removed (hard) or revoked by the caller (soft). The stored objects stay the same, minus the removed one. |
| Controller.UsersController.RestoreUser | AtonSolution/AtonWebAPI/Controllers/UsersController.cs:329-349 | NotFound for an unknown login. "User is already active" when neither revocation field is set. Otherwise both fields are cleared, nothing else changes, and the invariant holds. |

## Left out

- The `[Authorize(Roles = ...)]` gates on the actions are not modelled. The caller is an explicit `Principal`, and each action behaves as it does once admitted.
- `GetUsersOverSpecifiedAgeAsync`: its implementation is not part of this model, and the calendar arithmetic of ages is not modelled. `RequestUsersOverSpecifiedAge` stops at the age guard.
- `RequestAllActiveUsers` (UsersController.cs:227-230) only returns `GetActiveUsersAsync`, which `Service.UserStore.GetActiveUsers` models.
- `AuthenticationHeaderValue.Parse`, `Convert.FromBase64String` and UTF-8 decoding are library calls. The handler receives their outcome: no header, an unparsable header, or the decoded text.
- [Required] on plain query-string parameters is not modelled. The [ApiController] automatic 400 is modelled for the registration form and the three change actions.
- Service.UserStore.UpdateUserData: its body is not part of this model. The contract only says which fields may change, not their new values.
- Async execution, Entity Framework change tracking and `SaveChanges` are left out. Each operation is one sequential step on the store, and concurrent requests are not modelled.
- The `Guid`, `DateTime.Now` and the seed birthday (`DateTime.Now.AddYears(-20)`) are parameters. Dates are integer ticks. The randomness of `Guid.NewGuid()` is not modelled: `Register` and the handler's constructor require a `Guid` that no stored user holds.
- Controller.UsersController.RestoreUser: the source assigns `RevokedOn` and `RevokedBy` on the tracked entity (UsersController.cs:345-348) and never calls `SaveChanges`. The only save calls are UserService.cs:32 and BasicAuthenticationHandler.cs:44. As written, the restore is never saved. The context is registered per request (Program.cs:7), and the handler's own save runs before the action. The model shows the effect within the request, which is what the action's doc comment (UsersController.cs:323-325) promises.
- Service.SortByCreatedOn: the ensures state ordering and permutation, not the stability that `OrderBy` also guarantees.
- The OPTIONS and HEAD endpoints only set response headers. The DEBUG-only `GetUsers` is `Service.UserStore.Records`.
- Program.cs (service registration and middleware) is not part of this model.
- Service.UserStore.GetUserByLogin, GetUserByLoginAndPassword and Authenticate require unique logins. `SingleOrDefault` throws on a second match, and the store invariant rules that out.

## Findings

| source | as written | input that shows it | evidently intended | confidence | as-written member | corrected member |
|---|---|---|---|---|---|---|
| AtonSolution/AtonWebAPI/BasicAuthenticationHandler.cs:76-80 | `_ = claims.Append(new Claim(ClaimTypes.Role, "Administrator"))` discards the extended sequence, so the Administrator claim never reaches the identity | the seeded `admin` account authenticating with `admin:admin123` gets a principal with no roles | an admin account is given the Administrator role | not executed | Authentication.AdministratorClaimDropped | Authentication.IntendedAdministratorRole |
| AtonSolution/AtonWebAPI/BasicAuthenticationHandler.cs:70-74 | the claims issued are only `NameIdentifier` and `Name`, and no `User` role claim is issued, so the `[Authorize(Roles = "User")]` actions (UsersController.cs:101, 146, 186, 261) admit nobody | any stored account authenticating with its own login and password gets a principal with no roles, so ChangePassword's gate refuses it | every authenticated account is in the `User` role | not executed | Authentication.AdministratorClaimDropped | Authentication.IntendedAdministratorRole |

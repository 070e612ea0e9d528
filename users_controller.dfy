/**
 * The users controller: each action is a chain of guards (invalid parameters,
 * not found, forbidden, conflict) followed by a change to at most one record of
 * the store. The caller is an explicit input; an action that the source marks
 * `[Authorize]` receives the authenticated `Principal`, and registration, open to
 * anonymous callers, receives an optional one.
 */
module Controller {

  import opened Optional
  import opened FieldRules
  import opened Users
  import opened Registrations
  import opened Service
  import opened Authentication

  /** What an action answers, in place of the HTTP status and body. */
  datatype Response =
    | Ok
    | OkText(text: string)
    | Created(user: UserRecord)
    | Found(user: UserRecord)
    | Summary(name: string, gender: int, birthday: Option<int>, isActive: bool)
    | OverAgeQuery(age: int)
    | NotFound
    | Forbidden(text: string)
    | Conflict(text: string)
    | BadRequest(text: string)
    | Invalid(fields: set<Field>)
    | ServerError

  const AssignAdministratorForbidden := "You don't have permission to assign Administrator status to a new user"
  const LoginExists := "User with such login already exists"
  const ChangeDataForbidden := "You do not have permission to change someone else's data"
  /** The login change reuses the password action's message. */
  const ChangePasswordForbidden := "You do not have permission to change someone else's password"
  const LoginTaken := "This login is already taken."
  const AgeNotPositive := "Age must be greater than zero"
  const AlreadyActive := "User is already active"
  const Restored := "User has been restored successfully"

  /** `User.IsInRole("Administrator")` for a caller that may be anonymous. */
  predicate IsAdministrator(caller: Option<Principal>) {
    caller.Some? && AdministratorRole in caller.value.roles
  }

  /** `creatorLogin ?? string.Empty`, where `creatorLogin` is the caller's `NameIdentifier`
      and null for an anonymous caller. */
  function CreatorLogin(caller: Option<Principal>): (login: string)
    ensures caller.None? ==> login == ""
    ensures caller.Some? ==> login == caller.value.login
  {
    var creatorLogin := if caller.Some? then Some(caller.value.login) else None;
    creatorLogin.GetOr("")
  }

  /** The permission rule of the change actions: an administrator may change anyone;
      anyone else only their own account, and only while it is not revoked. */
  predicate MayChange(caller: Principal, target: UserRecord) {
    AdministratorRole in caller.roles || (caller.login == target.login && target.revokedOn.None?)
  }

  /** The attributes on the query parameters of the profile change: the name pattern
      (empty allowed), the gender range and the birthday rule, each only when supplied. */
  function ProfileParameterErrors(name: Option<string>, gender: Option<int>, birthday: Option<int>, now: int): (bad: set<Field>)
    ensures NameField in bad <==> name.Some? && !MatchesNameAlphabet(name.value)
    ensures GenderField in bad <==> gender.Some? && !IsGenderInRange(gender.value)
    ensures BirthdayField in bad <==> !IsBirthdayAcceptable(birthday, now)
    ensures bad <= {NameField, GenderField, BirthdayField}
  {
    (if name.Some? && !MatchesNameAlphabet(name.value) then {NameField} else {})
    + (if gender.Some? && !IsGenderInRange(gender.value) then {GenderField} else {})
    + (if IsBirthdayAcceptable(birthday, now) then {} else {BirthdayField})
  }

  /** A record after the profile change: name, gender and birthday as the service left them,
      the modification stamped, every other field as before. */
  ghost predicate ProfileEdited(before: UserRecord, after: UserRecord, modifier: string, now: int) {
    exists n, g, b :: after == before.(name := n, gender := g, birthday := b, modifiedOn := Some(now), modifiedBy := Some(modifier))
  }

  /** The store holds `rs` with its record at `k` replaced, and nothing else different. */
  ghost predicate OnlyChanged(rs: seq<UserRecord>, rs': seq<UserRecord>, k: nat) {
    k < |rs| && |rs'| == |rs| && rs' == rs[k := rs'[k]]
  }

  /** `RequestUsersOverSpecifiedAge`: a non-positive age is refused before any query;
      a positive one is answered by the service's age query, which is not part of this model. */
  function RequestUsersOverSpecifiedAge(age: int): (r: Response)
    ensures r == BadRequest(AgeNotPositive) <==> age <= 0
    ensures age > 0 ==> r == OverAgeQuery(age)
  {
    if age <= 0 then BadRequest(AgeNotPositive) else OverAgeQuery(age)
  }

  class UsersController {
    const service: UserStore

    constructor (service: UserStore)
      ensures this.service == service
    {
      this.service := service;
    }

    /** `Register`: invalid form, then Administrator status asked for by a non-administrator,
        then a login already held; otherwise one user built from the form is appended.
        `guid` stands for `Guid.NewGuid()`: a key no stored user holds. */
    method Register(reg: Registration, caller: Option<Principal>, now: int, guid: nat) returns (r: Response)
      requires service.Valid()
      requires !HasGuid(service.Records(), guid)
      modifies service
      ensures service.Valid()
      ensures r.Invalid? <==> !IsValid(reg, now)
      ensures r.Invalid? ==> r.fields == InvalidFields(reg, now)
      ensures r.Forbidden? <==> IsValid(reg, now) && reg.admin && !IsAdministrator(caller)
      ensures r.Forbidden? ==> r.text == AssignAdministratorForbidden
      ensures r.Conflict? <==> IsValid(reg, now) && !(reg.admin && !IsAdministrator(caller))
                               && HasLogin(old(service.Records()), reg.login)
      ensures r.Conflict? ==> r.text == LoginExists
      ensures r.Invalid? || r.Forbidden? || r.Conflict? || r.Created?
      ensures !r.Created? ==> service.Records() == old(service.Records())
      ensures r.Created? ==> service.Records() == old(service.Records()) + [r.user]
      ensures r.Created? ==> r.user.guid == guid && BuiltFrom(r.user, reg, CreatorLogin(caller), now)
      ensures !r.Created? ==> service.users == old(service.users)
      ensures r.Created? ==> var n := |old(service.users)|;
                |service.users| == n + 1 && service.users[..n] == old(service.users) && fresh(service.users[n])
    {
      var bad := InvalidFields(reg, now);
      if bad != {} {
        return Invalid(bad);
      }
      if reg.admin && !IsAdministrator(caller) {
        return Forbidden(AssignAdministratorForbidden);
      } else if service.HasUserWithRequiredLogin(reg.login) {
        return Conflict(LoginExists);
      }
      ghost var rs := service.Records();
      var user := CreateUserByGivenData(reg, CreatorLogin(caller), now, guid);
      BuiltFromValidIsWellFormed(user.Record(), reg, CreatorLogin(caller), now);
      AppendKeepsInvariant(rs, user.Record());
      var _ := service.AddUser(user);
      r := Created(user.Record());
    }

    /** `ChangeProfileData` (name, gender, birthday): invalid parameters, then no such user,
        then a caller who may not change it; otherwise the profile is updated and stamped. */
    method ChangeProfileData(selectedUserLogin: string, name: Option<string>, gender: Option<int>,
                             birthday: Option<int>, caller: Principal, now: int) returns (r: Response)
      requires service.Valid()
      modifies service.users
      ensures service.Valid()
      ensures var rs := old(service.Records()); var bad := ProfileParameterErrors(name, gender, birthday, now);
        && (r.Invalid? <==> bad != {})
        && (r.Invalid? ==> r.fields == bad)
        && (r == NotFound <==> bad == {} && !HasLogin(rs, selectedUserLogin))
        && (r.Forbidden? <==> bad == {} && HasLogin(rs, selectedUserLogin)
                              && !MayChange(caller, rs[FindLogin(rs, selectedUserLogin).value]))
        && (r.Forbidden? ==> r.text == ChangeDataForbidden)
        && (r == Ok <==> bad == {} && HasLogin(rs, selectedUserLogin)
                         && MayChange(caller, rs[FindLogin(rs, selectedUserLogin).value]))
        && (r != Ok ==> service.Records() == rs)
        && (r == Ok ==> var k := FindLogin(rs, selectedUserLogin).value;
                        OnlyChanged(rs, service.Records(), k)
                        && ProfileEdited(rs[k], service.Records()[k], caller.login, now))
    {
      ghost var rs := service.Records();
      var bad := ProfileParameterErrors(name, gender, birthday, now);
      if bad != {} {
        return Invalid(bad);
      }
      var selected := service.GetUserByLogin(selectedUserLogin);
      if selected.None? {
        return NotFound;
      }
      var user := selected.value;
      ghost var k := FindLogin(rs, selectedUserLogin).value;
      assert service.users[k] == user by {
        var i :| 0 <= i < |service.users| && service.users[i] == user;
        assert rs[i].login == rs[k].login;
      }
      if AdministratorRole !in caller.roles && (caller.login != selectedUserLogin || user.revokedOn.Some?) {
        return Forbidden(ChangeDataForbidden);
      }
      service.UpdateUserData(user, name, gender, birthday);
      service.MarkUserAsModified(user, caller.login, now);
      forall j | 0 <= j < |rs| && j != k
        ensures service.Records()[j] == rs[j]
      {
        assert service.users[j] != user;
      }
      assert service.Records() == rs[k := user.Record()];
      ReplaceKeepsInvariant(rs, k, user.Record());
      r := Ok;
    }

    /** `ChangeProfileData` (password): an invalid password, then no such user, then a caller
        who may not change it; otherwise the password is replaced and the change stamped. */
    method ChangePassword(selectedUserLogin: string, password: string, caller: Principal, now: int) returns (r: Response)
      requires service.Valid()
      modifies service.users
      ensures service.Valid()
      ensures var rs := old(service.Records());
        && (r.Invalid? <==> !IsCredentialText(password))
        && (r.Invalid? ==> r.fields == {PasswordField})
        && (r == NotFound <==> IsCredentialText(password) && !HasLogin(rs, selectedUserLogin))
        && (r.Forbidden? <==> IsCredentialText(password) && HasLogin(rs, selectedUserLogin)
                              && !MayChange(caller, rs[FindLogin(rs, selectedUserLogin).value]))
        && (r.Forbidden? ==> r.text == ChangePasswordForbidden)
        && (r == Ok <==> IsCredentialText(password) && HasLogin(rs, selectedUserLogin)
                         && MayChange(caller, rs[FindLogin(rs, selectedUserLogin).value]))
        && (r != Ok ==> service.Records() == rs)
        && (r == Ok ==> var k := FindLogin(rs, selectedUserLogin).value;
                        service.Records() == rs[k := rs[k].(password := password, modifiedOn := Some(now),
                                                             modifiedBy := Some(caller.login))])
    {
      ghost var rs := service.Records();
      if !IsCredentialText(password) {
        return Invalid({PasswordField});
      }
      var selected := service.GetUserByLogin(selectedUserLogin);
      if selected.None? {
        return NotFound;
      }
      var user := selected.value;
      ghost var k := FindLogin(rs, selectedUserLogin).value;
      assert service.users[k] == user by {
        var i :| 0 <= i < |service.users| && service.users[i] == user;
        assert rs[i].login == rs[k].login;
      }
      if AdministratorRole !in caller.roles && (caller.login != selectedUserLogin || user.revokedOn.Some?) {
        return Forbidden(ChangePasswordForbidden);
      }
      service.UpdateUserPassword(user, password);
      service.MarkUserAsModified(user, caller.login, now);
      forall j | 0 <= j < |rs| && j != k
        ensures service.Records()[j] == rs[j]
      {
        assert service.users[j] != user;
      }
      assert service.Records() == rs[k := user.Record()];
      ReplaceKeepsInvariant(rs, k, user.Record());
      r := Ok;
    }

    /** `ChangeLogin`: an invalid new login, then no such user, then a caller who may not
        change it, then a new login some user already holds (the target itself included);
        otherwise the login is replaced and the change stamped. */
    method ChangeLogin(selectedUserLogin: string, newUserLogin: string, caller: Principal, now: int) returns (r: Response)
      requires service.Valid()
      modifies service.users
      ensures service.Valid()
      ensures var rs := old(service.Records());
        && (r.Invalid? <==> !IsCredentialText(newUserLogin))
        && (r.Invalid? ==> r.fields == {LoginField})
        && (r == NotFound <==> IsCredentialText(newUserLogin) && !HasLogin(rs, selectedUserLogin))
        && (r.Forbidden? <==> IsCredentialText(newUserLogin) && HasLogin(rs, selectedUserLogin)
                              && !MayChange(caller, rs[FindLogin(rs, selectedUserLogin).value]))
        && (r.Forbidden? ==> r.text == ChangePasswordForbidden)
        && (r.Conflict? <==> IsCredentialText(newUserLogin) && HasLogin(rs, selectedUserLogin)
                             && MayChange(caller, rs[FindLogin(rs, selectedUserLogin).value])
                             && HasLogin(rs, newUserLogin))
        && (r.Conflict? ==> r.text == LoginTaken)
        && (r == Ok <==> IsCredentialText(newUserLogin) && HasLogin(rs, selectedUserLogin)
                         && MayChange(caller, rs[FindLogin(rs, selectedUserLogin).value])
                         && !HasLogin(rs, newUserLogin))
        && (r != Ok ==> service.Records() == rs)
        && (r == Ok ==> var k := FindLogin(rs, selectedUserLogin).value;
                        service.Records() == rs[k := rs[k].(login := newUserLogin, modifiedOn := Some(now),
                                                             modifiedBy := Some(caller.login))])
    {
      ghost var rs := service.Records();
      if !IsCredentialText(newUserLogin) {
        return Invalid({LoginField});
      }
      var selected := service.GetUserByLogin(selectedUserLogin);
      if selected.None? {
        return NotFound;
      }
      var user := selected.value;
      ghost var k := FindLogin(rs, selectedUserLogin).value;
      assert service.users[k] == user by {
        var i :| 0 <= i < |service.users| && service.users[i] == user;
        assert rs[i].login == rs[k].login;
      }
      if AdministratorRole !in caller.roles && (caller.login != selectedUserLogin || user.revokedOn.Some?) {
        return Forbidden(ChangePasswordForbidden);
      } else if service.HasUserWithRequiredLogin(newUserLogin) {
        return Conflict(LoginTaken);
      }
      service.UpdateUserLogin(user, newUserLogin);
      service.MarkUserAsModified(user, caller.login, now);
      forall j | 0 <= j < |rs| && j != k
        ensures service.Records()[j] == rs[j]
      {
        assert service.users[j] != user;
      }
      assert service.Records() == rs[k := user.Record()];
      ReplaceKeepsInvariant(rs, k, user.Record());
      r := Ok;
    }

    /** `RequestByLogin`: the name, gender, birthday and active flag of the user holding
        `login`; the flag reads `RevokedBy`. */
    function RequestByLogin(login: string): (r: Response)
      reads service, service.users
      requires LoginsUnique(service.Records())
      ensures r == NotFound <==> !HasLogin(service.Records(), login)
      ensures r != NotFound ==>
                var u := service.Records()[FindLogin(service.Records(), login).value];
                r == Summary(u.name, u.gender, u.birthday, u.revokedBy.None?)
    {
      match service.GetUserByLogin(login)
      case Some(user) =>
        assert user.Record() == service.Records()[FindLogin(service.Records(), login).value] by {
          var i :| 0 <= i < |service.users| && service.users[i] == user;
        }
        Summary(user.name, user.gender, user.birthday, user.revokedBy.None?)
      case None => NotFound
    }

    /** `RequestPersonalProfile`: the record of the user holding `login` and `password`, only
        when those are the caller's own; revocation is not consulted. The caller's own record
        is dereferenced without a null check once the lookup has succeeded. */
    function RequestPersonalProfile(login: string, password: string, caller: Principal): (r: Response)
      reads service, service.users
      requires LoginsUnique(service.Records())
      ensures var rs := service.Records();
        && (r.Found? <==> HasCredentials(rs, login, password) && caller.login == login)
        && (r.Found? ==> r.user.login == login && r.user.password == password && r.user in rs)
        && (r == ServerError <==> HasCredentials(rs, login, password) && !HasLogin(rs, caller.login))
        && (r.Found? || r == ServerError || r == NotFound)
    {
      var current := service.GetUserByLogin(caller.login);
      var requested := service.GetUserByLoginAndPassword(login, password);
      if requested.None? then NotFound
      else if current.None? then ServerError
      else if current.value.login != login || current.value.password != password then NotFound
      else
        assert requested.value.Record() in service.Records() by {
          var i :| 0 <= i < |service.users| && service.users[i] == requested.value;
        }
        assert current.value == requested.value by {
          var i :| 0 <= i < |service.users| && service.users[i] == requested.value;
          var j :| 0 <= j < |service.users| && service.users[j] == current.value;
          assert service.Records()[i].login == service.Records()[j].login;
        }
        Found(requested.value.Record())
    }

    /** `DeleteUser`: no user holding `login` gives NotFound; otherwise the service deletes it,
        removing the record (hard) or stamping its revocation with the caller (soft). */
    method DeleteUser(login: string, isHardDelete: bool, caller: Principal, now: int) returns (r: Response)
      requires service.Valid()
      modifies service, service.users
      ensures service.Valid()
      ensures r == NotFound <==> !HasLogin(old(service.Records()), login)
      ensures r == NotFound || r == Ok
      ensures r == NotFound ==> service.Records() == old(service.Records())
      ensures r == Ok ==> var rs := old(service.Records()); var k := FindLogin(rs, login).value;
                if isHardDelete then service.Records() == rs[..k] + rs[k + 1..]
                else service.Records() == rs[k := rs[k].(revokedOn := Some(now), revokedBy := Some(caller.login))]
      ensures r == NotFound ==> service.users == old(service.users)
      ensures r == Ok ==> var k := FindLogin(old(service.Records()), login).value;
                if isHardDelete then service.users == old(service.users)[..k] + old(service.users)[k + 1..]
                else service.users == old(service.users)
    {
      if !service.HasUserWithRequiredLogin(login) {
        return NotFound;
      }
      service.DeleteUser(login, isHardDelete, caller.login, now);
      r := Ok;
    }

    /** `RestoreUser`: no such user gives NotFound; a user with neither revocation field set
        gives BadRequest; otherwise both fields are cleared together. */
    method RestoreUser(login: string) returns (r: Response)
      requires service.Valid()
      modifies service.users
      ensures service.Valid()
      ensures var rs := old(service.Records());
        && (r == NotFound <==> !HasLogin(rs, login))
        && (r == BadRequest(AlreadyActive) <==>
              HasLogin(rs, login) && rs[FindLogin(rs, login).value].revokedOn.None?
              && rs[FindLogin(rs, login).value].revokedBy.None?)
        && (r == OkText(Restored) <==> HasLogin(rs, login) && !IsActive(rs[FindLogin(rs, login).value]))
        && (r != OkText(Restored) ==> service.Records() == rs)
        && (r == OkText(Restored) ==> var k := FindLogin(rs, login).value;
              service.Records() == rs[k := rs[k].(revokedOn := None, revokedBy := None)])
    {
      ghost var rs := service.Records();
      var selected := service.GetUserByLogin(login);
      if selected.None? {
        return NotFound;
      }
      var user := selected.value;
      ghost var k := FindLogin(rs, login).value;
      assert service.users[k] == user by {
        var i :| 0 <= i < |service.users| && service.users[i] == user;
        assert rs[i].login == rs[k].login;
      }
      if user.revokedOn.None? && user.revokedBy.None? {
        return BadRequest(AlreadyActive);
      }
      user.revokedOn := None;
      user.revokedBy := None;
      forall j | 0 <= j < |rs| && j != k
        ensures service.Records()[j] == rs[j]
      {
        assert service.users[j] != user;
      }
      assert service.Records() == rs[k := user.Record()];
      ReplaceKeepsInvariant(rs, k, user.Record());
      r := OkText(Restored);
    }
  }
}

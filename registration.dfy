/**
 * The registration form: its fields, the validation attributes on them, and the
 * construction of a `User` from it.
 */
module Registrations {

  import opened Optional
  import opened FieldRules
  import opened Users

  /** The bound form. `Birthday` is optional; `Admin` is false unless the form sets it. */
  datatype Registration = Registration(
    login: string,
    password: string,
    name: string,
    gender: int,
    birthday: Option<int> := None,
    admin: bool := false)

  /** The form fields a validation error can name. */
  datatype Field = LoginField | PasswordField | NameField | GenderField | BirthdayField

  /** The fields whose attributes reject the form: the model state's error keys. */
  function InvalidFields(reg: Registration, now: int): (bad: set<Field>)
    ensures LoginField in bad <==> !IsCredentialText(reg.login)
    ensures PasswordField in bad <==> !IsCredentialText(reg.password)
    ensures NameField in bad <==> !IsNameText(reg.name)
    ensures GenderField in bad <==> !IsGenderInRange(reg.gender)
    ensures BirthdayField in bad <==> !IsBirthdayAcceptable(reg.birthday, now)
    ensures bad == {} <==> IsValid(reg, now)
  {
    (if IsCredentialText(reg.login) then {} else {LoginField})
    + (if IsCredentialText(reg.password) then {} else {PasswordField})
    + (if IsNameText(reg.name) then {} else {NameField})
    + (if IsGenderInRange(reg.gender) then {} else {GenderField})
    + (if IsBirthdayAcceptable(reg.birthday, now) then {} else {BirthdayField})
  }

  /** Every attribute of the form is satisfied. */
  predicate IsValid(reg: Registration, now: int) {
    && IsCredentialText(reg.login)
    && IsCredentialText(reg.password)
    && IsNameText(reg.name)
    && IsGenderInRange(reg.gender)
    && IsBirthdayAcceptable(reg.birthday, now)
  }

  /** A record built from the form: the six form fields copied verbatim, the creation
      stamp set, nothing modified or revoked yet. */
  predicate BuiltFrom(u: UserRecord, reg: Registration, creatorLogin: string, now: int) {
    && u.login == reg.login && u.password == reg.password && u.name == reg.name
    && u.gender == reg.gender && u.birthday == reg.birthday && u.admin == reg.admin
    && u.createdOn == now && u.createdBy == creatorLogin
    && u.modifiedOn.None? && u.modifiedBy.None? && u.revokedOn.None? && u.revokedBy.None?
  }

  /** A record built from a valid form passes the store's record rules. */
  lemma BuiltFromValidIsWellFormed(u: UserRecord, reg: Registration, creatorLogin: string, now: int)
    requires BuiltFrom(u, reg, creatorLogin, now) && IsValid(reg, now)
    ensures WellFormed(u) && IsActive(u)
  {
  }

  /** `CreateUserByGivenData`: a new `User` whose fields come from the form, created
      at `now` by `creatorLogin`. The `Guid` comes from the caller. */
  method CreateUserByGivenData(reg: Registration, creatorLogin: string, now: int, guid: nat) returns (u: User)
    ensures fresh(u)
    ensures u.guid == guid && BuiltFrom(u.Record(), reg, creatorLogin, now)
  {
    u := new User(guid, reg.login, reg.password, reg.name, now, creatorLogin);
    u.gender := reg.gender;
    u.birthday := reg.birthday;
    u.admin := reg.admin;
  }
}

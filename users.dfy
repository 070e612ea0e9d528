/**
 * The account record: a mutable object whose properties the controller and the
 * service overwrite one at a time, and the value (`UserRecord`) that its fields
 * hold at a given moment. Times are integer ticks; the `Guid` is a number
 * supplied by the creator.
 */
module Users {

  import opened Optional
  import opened FieldRules

  /** The values held by one `User` object. */
  datatype UserRecord = UserRecord(
    guid: nat,
    login: string,
    password: string,
    name: string,
    gender: int,
    birthday: Option<int>,
    admin: bool,
    createdOn: int,
    createdBy: string,
    modifiedOn: Option<int>,
    modifiedBy: Option<string>,
    revokedOn: Option<int>,
    revokedBy: Option<string>)

  /** The default value of `Gender` when an initializer does not set it. */
  const DefaultGender := 2

  class User {
    var guid: nat
    var login: string
    var password: string
    var name: string
    var gender: int
    var birthday: Option<int>
    var admin: bool
    var createdOn: int
    var createdBy: string
    var modifiedOn: Option<int>
    var modifiedBy: Option<string>
    var revokedOn: Option<int>
    var revokedBy: Option<string>

    /** `new User { Login, Password, Name, CreatedOn, CreatedBy }`: the five `required`
        members are supplied; every other field takes its declared default. */
    constructor (guid: nat, login: string, password: string, name: string, createdOn: int, createdBy: string)
      ensures Record() == UserRecord(guid, login, password, name, DefaultGender, None, false,
                                     createdOn, createdBy, None, None, None, None)
    {
      this.guid := guid;
      this.login := login;
      this.password := password;
      this.name := name;
      this.gender := DefaultGender;
      this.birthday := None;
      this.admin := false;
      this.createdOn := createdOn;
      this.createdBy := createdBy;
      this.modifiedOn := None;
      this.modifiedBy := None;
      this.revokedOn := None;
      this.revokedBy := None;
    }

    /** The value this object holds now. */
    function Record(): UserRecord
      reads this
    {
      UserRecord(guid, login, password, name, gender, birthday, admin,
                 createdOn, createdBy, modifiedOn, modifiedBy, revokedOn, revokedBy)
    }
  }

  /** An account is active while it carries no revocation. */
  predicate IsActive(r: UserRecord) {
    r.revokedOn.None?
  }

  /** Soft deletion and restoration set and clear the two revocation fields together. */
  predicate RevocationConsistent(r: UserRecord) {
    r.revokedOn.None? <==> r.revokedBy.None?
  }

  /** A record every operation of the service keeps: credentials pass the form rules,
      and the revocation fields are both set or both clear. */
  predicate WellFormed(r: UserRecord) {
    IsCredentialText(r.login) && IsCredentialText(r.password) && RevocationConsistent(r)
  }

  /** No two records share a login (the lookups by login use `SingleOrDefault`,
      which faults on a second match). */
  predicate LoginsUnique(rs: seq<UserRecord>) {
    forall i, j :: 0 <= i < |rs| && 0 <= j < |rs| && rs[i].login == rs[j].login ==> i == j
  }

  predicate HasLogin(rs: seq<UserRecord>, login: string) {
    exists i :: 0 <= i < |rs| && rs[i].login == login
  }

  /** No two records share a `Guid`, the primary key of the `Users` set. */
  predicate GuidsUnique(rs: seq<UserRecord>) {
    forall i, j :: 0 <= i < |rs| && 0 <= j < |rs| && rs[i].guid == rs[j].guid ==> i == j
  }

  predicate HasGuid(rs: seq<UserRecord>, guid: nat) {
    exists i :: 0 <= i < |rs| && rs[i].guid == guid
  }

  /** What the store keeps true between requests. */
  predicate StoreInvariant(rs: seq<UserRecord>) {
    LoginsUnique(rs) && GuidsUnique(rs) && forall i :: 0 <= i < |rs| ==> WellFormed(rs[i])
  }

  /** Appending a well-formed record whose login and `Guid` are new keeps the invariant. */
  lemma AppendKeepsInvariant(rs: seq<UserRecord>, r: UserRecord)
    requires StoreInvariant(rs) && WellFormed(r) && !HasLogin(rs, r.login) && !HasGuid(rs, r.guid)
    ensures StoreInvariant(rs + [r])
  {
  }

  /** Replacing one record by a well-formed one with the same `Guid`, whose login no other
      record holds, keeps the invariant. */
  lemma ReplaceKeepsInvariant(rs: seq<UserRecord>, k: nat, r: UserRecord)
    requires StoreInvariant(rs) && k < |rs| && WellFormed(r) && r.guid == rs[k].guid
    requires forall j :: 0 <= j < |rs| && j != k ==> rs[j].login != r.login
    ensures StoreInvariant(rs[k := r])
  {
  }

  /** Removing one record keeps the invariant. */
  lemma RemoveKeepsInvariant(rs: seq<UserRecord>, k: nat)
    requires StoreInvariant(rs) && k < |rs|
    ensures StoreInvariant(rs[..k] + rs[k + 1..])
  {
  }
}

/**
 * The user store and the service over it: the `Users` set of the storage context,
 * the LINQ queries of the user service, and the service operations the controller
 * calls. Every operation is one sequential step on the store.
 */
module Service {

  import opened Optional
  import opened FieldRules
  import opened Users

  /** `FirstOrDefault(u => u.Login == login)`: the position of the first record with that login. */
  function FindLogin(rs: seq<UserRecord>, login: string): (k: Option<nat>)
    ensures k.Some? ==> k.value < |rs| && rs[k.value].login == login
    ensures k.Some? ==> forall j :: 0 <= j < k.value ==> rs[j].login != login
    ensures k.None? <==> !HasLogin(rs, login)
  {
    if rs == [] then None
    else if rs[0].login == login then Some(0)
    else match FindLogin(rs[1..], login)
      case Some(j) => Some(j + 1)
      case None => None
  }

  /** True when some record holds exactly that login and that password. */
  predicate HasCredentials(rs: seq<UserRecord>, login: string, password: string) {
    exists i :: 0 <= i < |rs| && rs[i].login == login && rs[i].password == password
  }

  /** `FirstOrDefault(u => u.Login == login && u.Password == password)`. */
  function FindCredentials(rs: seq<UserRecord>, login: string, password: string): (k: Option<nat>)
    ensures k.Some? ==> k.value < |rs| && rs[k.value].login == login && rs[k.value].password == password
    ensures k.Some? ==> forall j :: 0 <= j < k.value ==> !(rs[j].login == login && rs[j].password == password)
    ensures k.None? <==> !HasCredentials(rs, login, password)
  {
    if rs == [] then None
    else if rs[0].login == login && rs[0].password == password then Some(0)
    else match FindCredentials(rs[1..], login, password)
      case Some(j) => Some(j + 1)
      case None => None
  }

  /** With unique logins, a credential match is the record holding the login. */
  lemma CredentialsMatchLoginRecord(rs: seq<UserRecord>, login: string, password: string)
    requires LoginsUnique(rs)
    ensures FindCredentials(rs, login, password).Some? <==>
            FindLogin(rs, login).Some? && rs[FindLogin(rs, login).value].password == password
    ensures FindCredentials(rs, login, password).Some? ==>
            FindCredentials(rs, login, password) == FindLogin(rs, login)
  {
  }

  /** `Where(u => u.RevokedOn == null)`: the active records, in store order. */
  function ActiveOf(rs: seq<UserRecord>): (r: seq<UserRecord>)
    ensures forall e :: multiset(r)[e] == if IsActive(e) then multiset(rs)[e] else 0
  {
    if rs == [] then []
    else
      assert rs == [rs[0]] + rs[1..];
      (if IsActive(rs[0]) then [rs[0]] else []) + ActiveOf(rs[1..])
  }

  /** Non-decreasing by `CreatedOn`: every earlier record was created no later than every later one. */
  predicate SortedByCreatedOn(rs: seq<UserRecord>) {
    forall i, j :: 0 <= i < j < |rs| ==> rs[i].createdOn <= rs[j].createdOn
  }

  /** Each record was created no later than the next one. */
  predicate ChainedByCreatedOn(rs: seq<UserRecord>) {
    forall i :: 0 <= i < |rs| - 1 ==> rs[i].createdOn <= rs[i + 1].createdOn
  }

  /** Comparing neighbours is enough: a chained sequence is sorted. */
  lemma {:induction false} ChainedIsSorted(rs: seq<UserRecord>)
    requires ChainedByCreatedOn(rs)
    ensures SortedByCreatedOn(rs)
  {
    if |rs| > 1 {
      ChainedIsSorted(rs[1..]);
      forall j | 1 <= j < |rs|
        ensures rs[0].createdOn <= rs[j].createdOn
      {
        assert rs[0].createdOn <= rs[1].createdOn;
        if j > 1 {
          assert rs[1..][0].createdOn <= rs[1..][j - 1].createdOn;
        }
      }
    }
  }

  /** Places `x` before the first record of `rs` that is not created earlier than it. */
  function InsertByCreatedOn(x: UserRecord, rs: seq<UserRecord>): (r: seq<UserRecord>)
    requires ChainedByCreatedOn(rs)
    ensures |r| == |rs| + 1
    ensures r[0] == x || (|rs| > 0 && r[0] == rs[0])
    ensures ChainedByCreatedOn(r)
    ensures multiset(r) == multiset(rs) + multiset{x}
  {
    if rs == [] || x.createdOn <= rs[0].createdOn then [x] + rs
    else
      assert rs == [rs[0]] + rs[1..];
      [rs[0]] + InsertByCreatedOn(x, rs[1..])
  }

  /** `OrderBy(u => u.CreatedOn)`: an insertion sort that keeps records with equal
      creation times in their store order. */
  function SortByCreatedOn(rs: seq<UserRecord>): (r: seq<UserRecord>)
    ensures ChainedByCreatedOn(r)
    ensures multiset(r) == multiset(rs)
  {
    if rs == [] then []
    else
      assert rs == [rs[0]] + rs[1..];
      InsertByCreatedOn(rs[0], SortByCreatedOn(rs[1..]))
  }

  /** The storage context's `Users` set, with the user service's queries and updates. */
  class UserStore {
    var users: seq<User>

    constructor ()
      ensures users == [] && Valid()
    {
      users := [];
    }

    /** `GetUsersAsync`: every stored user, in store order. */
    function Records(): (rs: seq<UserRecord>)
      reads this, users
      ensures |rs| == |users|
      ensures forall i :: 0 <= i < |users| ==> rs[i] == users[i].Record()
    {
      var us := users;
      seq(|us|, i requires 0 <= i < |us| reads us => us[i].Record())
    }

    /** The store holds each object once, and its records keep the store invariant. */
    ghost predicate Valid()
      reads this, users
    {
      (forall i, j :: 0 <= i < |users| && 0 <= j < |users| && users[i] == users[j] ==> i == j)
      && StoreInvariant(Records())
    }

    /** `GetActiveUsersAsync`: the records with no `RevokedOn`, none dropped and none added,
        ordered by `CreatedOn`. */
    function GetActiveUsers(): (r: seq<UserRecord>)
      reads this, users
      ensures SortedByCreatedOn(r)
      ensures forall e :: multiset(r)[e] == if IsActive(e) then multiset(Records())[e] else 0
    {
      var r := SortByCreatedOn(ActiveOf(Records()));
      ChainedIsSorted(r);
      r
    }

    /** `GetUserByLoginAsync`: the user holding `login`, or null. `SingleOrDefault` needs the login to be unique. */
    function GetUserByLogin(login: string): (r: Option<User>)
      reads this, users
      requires LoginsUnique(Records())
      ensures r.Some? <==> HasLogin(Records(), login)
      ensures r.Some? ==> r.value in users && r.value.login == login
    {
      match FindLogin(Records(), login)
      case Some(k) => Some(users[k])
      case None => None
    }

    /** `GetUserByLoginAndPasswordAsync`: the user holding both `login` and `password`, or null. */
    function GetUserByLoginAndPassword(login: string, password: string): (r: Option<User>)
      reads this, users
      requires LoginsUnique(Records())
      ensures r.Some? <==> HasCredentials(Records(), login, password)
      ensures r.Some? ==> r.value in users && r.value.login == login && r.value.password == password
    {
      match FindCredentials(Records(), login, password)
      case Some(k) => Some(users[k])
      case None => None
    }

    /** `AuthenticateAsync`: the same query as `GetUserByLoginAndPasswordAsync`. */
    function Authenticate(login: string, password: string): (r: Option<User>)
      reads this, users
      requires LoginsUnique(Records())
      ensures r.Some? <==> HasCredentials(Records(), login, password)
      ensures r.Some? ==> r.value in users && r.value.login == login && r.value.password == password
    {
      GetUserByLoginAndPassword(login, password)
    }

    /** `HasUserWithRequiredLoginAsync`: some stored user, active or revoked, holds `login`. */
    function HasUserWithRequiredLogin(login: string): (r: bool)
      reads this, users
      ensures r <==> exists i :: 0 <= i < |users| && users[i].login == login
    {
      FindLogin(Records(), login).Some?
    }

    /** `AddUserAsync`: appends the user and reports one saved entry. */
    method AddUser(user: User) returns (saved: int)
      modifies this
      ensures users == old(users) + [user]
      ensures Records() == old(Records()) + [user.Record()]
      ensures saved == 1
    {
      users := users + [user];
      saved := 1;
    }

    /** `UpdateUserData`: its body is not part of this model. Only the name, the gender
        and the birthday may change, to values this model leaves open. */
    method UpdateUserData(user: User, name: Option<string>, gender: Option<int>, birthday: Option<int>)
      modifies user
      ensures exists n, g, b :: user.Record() == old(user.Record()).(name := n, gender := g, birthday := b)
    {
      var n: string := *;
      var g: int := *;
      var b: Option<int> := *;
      user.name, user.gender, user.birthday := n, g, b;
      assert user.Record() == old(user.Record()).(name := n, gender := g, birthday := b);
    }

    /** `UpdateUserPassword`: the password becomes `password`. */
    method UpdateUserPassword(user: User, password: string)
      modifies user
      ensures user.Record() == old(user.Record()).(password := password)
    {
      user.password := password;
    }

    /** `UpdateUserLogin`: the login becomes `login`. */
    method UpdateUserLogin(user: User, login: string)
      modifies user
      ensures user.Record() == old(user.Record()).(login := login)
    {
      user.login := login;
    }

    /** `MarkUserAsModified`: stamps the modification time and author. */
    method MarkUserAsModified(user: User, modifierLogin: string, now: int)
      modifies user
      ensures user.Record() == old(user.Record()).(modifiedOn := Some(now), modifiedBy := Some(modifierLogin))
    {
      user.modifiedOn := Some(now);
      user.modifiedBy := Some(modifierLogin);
    }

    /** `DeleteUserAsync`: a hard delete removes the user holding `login`; a soft delete
        stamps `RevokedOn` and `RevokedBy`. */
    method DeleteUser(login: string, isHardDelete: bool, adminLogin: string, now: int)
      requires Valid()
      modifies this, users
      ensures Valid()
      ensures var rs := old(Records());
              match FindLogin(rs, login)
              case None => Records() == rs
              case Some(k) =>
                if isHardDelete then Records() == rs[..k] + rs[k + 1..]
                else Records() == rs[k := rs[k].(revokedOn := Some(now), revokedBy := Some(adminLogin))]
      ensures match FindLogin(old(Records()), login)
              case Some(k) =>
                if isHardDelete then users == old(users)[..k] + old(users)[k + 1..] else users == old(users)
              case None => users == old(users)
    {
      match FindLogin(Records(), login)
      case None =>
      case Some(k) =>
        if isHardDelete {
          RemoveAt(k);
        } else {
          RevokeAt(k, now, adminLogin);
        }
    }

    /** Hard deletion: the record at `k` leaves the store, the others keep their order. */
    method RemoveAt(k: nat)
      requires Valid() && k < |users|
      modifies this
      ensures Valid()
      ensures Records() == old(Records())[..k] + old(Records())[k + 1..]
      ensures users == old(users)[..k] + old(users)[k + 1..]
    {
      ghost var rs := Records();
      ghost var before := users;
      users := users[..k] + users[k + 1..];
      forall i | 0 <= i < |users|
        ensures users[i] == before[if i < k then i else i + 1]
        ensures Records()[i] == (rs[..k] + rs[k + 1..])[i]
      {
      }
      assert Records() == rs[..k] + rs[k + 1..];
      RemoveKeepsInvariant(rs, k);
    }

    /** Soft deletion: the record at `k` is stamped as revoked by `adminLogin` at `now`. */
    method RevokeAt(k: nat, now: int, adminLogin: string)
      requires Valid() && k < |users|
      modifies users[k]
      ensures Valid()
      ensures Records() == old(Records())[k := old(Records())[k].(revokedOn := Some(now), revokedBy := Some(adminLogin))]
    {
      ghost var rs := Records();
      var user := users[k];
      user.revokedOn := Some(now);
      user.revokedBy := Some(adminLogin);
      forall i | 0 <= i < |users| && i != k
        ensures users[i].Record() == rs[i]
      {
        assert users[i] != user;
      }
      assert Records() == rs[k := user.Record()];
      ReplaceKeepsInvariant(rs, k, user.Record());
    }
  }
}

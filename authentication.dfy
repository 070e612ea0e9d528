/**
 * Basic authentication: the handler that seeds an `admin` account when it is
 * constructed, and turns the `Authorization` header into a claim list.
 * Parsing the header (`AuthenticationHeaderValue.Parse`) and base64 decoding are
 * library calls; the handler here receives their outcome: no header, a header
 * the library calls could not turn into text, or the decoded text.
 */
module Authentication {

  import opened Optional
  import FieldRules
  import opened Users
  import opened Service

  /** The role names a claims principal can be in. */
  datatype Role = AdministratorRole | UserRole

  /** The authenticated caller as the controller sees it: its `NameIdentifier` and its roles. */
  datatype Principal = Principal(login: string, roles: set<Role>)

  datatype AuthorizationHeader = Absent | Unparsable | Decoded(text: string)

  datatype Claim = NameIdentifierClaim(value: string) | NameClaim(value: string) | RoleClaim(role: Role)

  datatype FailureReason = InvalidHeader | InvalidCredentials {
    function Message(): string {
      match this
      case InvalidHeader => "Invalid Authorization Header"
      case InvalidCredentials => "Invalid Username or Password"
    }
  }

  datatype AuthenticateResult = NoResult | Fail(reason: FailureReason) | Success(claims: seq<Claim>)

  /** `Split([':'], 2)`: the text before the first colon and everything after it,
      or the whole text alone when it has no colon. */
  function SplitAtFirstColon(text: string): (parts: seq<string>)
    ensures ':' !in text ==> parts == [text]
    ensures ':' in text ==> |parts| == 2 && ':' !in parts[0] && parts[0] + [':'] + parts[1] == text
  {
    if text == [] then [text]
    else if text[0] == ':' then ["", text[1..]]
    else
      var rest := SplitAtFirstColon(text[1..]);
      assert text == [text[0]] + text[1..];
      if |rest| == 1 then [text] else [[text[0]] + rest[0], rest[1]]
  }

  /** The login before the first colon is recovered whole, and the password keeps
      every colon it contains. */
  lemma {:induction false} SplitRecoversCredentials(login: string, password: string)
    requires ':' !in login
    ensures SplitAtFirstColon(login + [':'] + password) == [login, password]
  {
    var text := login + [':'] + password;
    assert text[|login|] == ':';
    var parts := SplitAtFirstColon(text);
    PrefixBeforeColonIsUnique(parts[0], parts[1], login, password);
  }

  /** Two ways of writing a text as "colon-free prefix, colon, rest" are the same. */
  lemma {:induction false} PrefixBeforeColonIsUnique(a: string, b: string, c: string, d: string)
    requires ':' !in a && ':' !in c
    requires a + [':'] + b == c + [':'] + d
    ensures a == c && b == d
  {
    // the first characters agree, so either both prefixes are empty or neither is
    assert (a + [':'] + b)[0] == (c + [':'] + d)[0];
    if a == [] && c == [] {
      assert b == (a + [':'] + b)[1..];
      assert d == (c + [':'] + d)[1..];
    } else if a != [] && c != [] {
      assert (a + [':'] + b)[0] == a[0] && (c + [':'] + d)[0] == c[0];
      assert (a + [':'] + b)[1..] == a[1..] + [':'] + b;
      assert (c + [':'] + d)[1..] == c[1..] + [':'] + d;
      PrefixBeforeColonIsUnique(a[1..], b, c[1..], d);
      assert a == [a[0]] + a[1..] && c == [c[0]] + c[1..];
    }
  }

  /** What the header, the split and the credential lookup decide, before claims are built. */
  datatype Verification = NoCredentials | Rejected(reason: FailureReason) | Verified(user: UserRecord)

  /** Lines 50-68 and 88-91 of BasicAuthenticationHandler.cs: no header gives no result; a header the library
      calls reject, or a decoded text with no colon (the second part is then missing), is an
      invalid header; otherwise the first user holding exactly that login and that password
      is looked up. Revocation is not consulted. */
  function Verify(header: AuthorizationHeader, rs: seq<UserRecord>): (v: Verification)
    ensures v.NoCredentials? <==> header.Absent?
    ensures v == Rejected(InvalidHeader) <==> header.Unparsable? || (header.Decoded? && ':' !in header.text)
    ensures v == Rejected(InvalidCredentials) <==>
              header.Decoded? && ':' in header.text &&
              var parts := SplitAtFirstColon(header.text);
              !HasCredentials(rs, parts[0], parts[1])
    ensures v.Verified? ==>
              header.Decoded? && ':' in header.text &&
              var parts := SplitAtFirstColon(header.text);
              var k := FindCredentials(rs, parts[0], parts[1]);
              k.Some? && v.user == rs[k.value]
  {
    match header
    case Absent => NoCredentials
    case Unparsable => Rejected(InvalidHeader)
    case Decoded(text) =>
      var parts := SplitAtFirstColon(text);
      if |parts| < 2 then Rejected(InvalidHeader)
      else match FindCredentials(rs, parts[0], parts[1])
        case None => Rejected(InvalidCredentials)
        case Some(k) => Verified(rs[k])
  }

  /** The claims the handler issues: the login and the name. */
  function IssuedClaims(u: UserRecord): seq<Claim> {
    [NameIdentifierClaim(u.login), NameClaim(u.name)]
  }

  /** `HandleAuthenticateAsync` as written: the Administrator claim built for an admin is
      handed to `Append`, whose result is discarded, so it never reaches the principal. */
  function Authenticate(header: AuthorizationHeader, rs: seq<UserRecord>): (r: AuthenticateResult)
    ensures r.NoResult? <==> header.Absent?
    ensures r.Fail? <==> Verify(header, rs).Rejected?
    ensures r.Fail? ==> r.reason == Verify(header, rs).reason
    ensures r.Success? ==> r.claims == IssuedClaims(Verify(header, rs).user)
  {
    match Verify(header, rs)
    case NoCredentials => NoResult
    case Rejected(reason) => Fail(reason)
    case Verified(u) => Success(IssuedClaims(u))
  }

  /** The principal a claim list yields: its first `NameIdentifier` (what `FindFirst` returns,
      the empty string when there is none) and every role claim. */
  function PrincipalOf(claims: seq<Claim>): (p: Principal)
    ensures forall role :: role in p.roles <==> RoleClaim(role) in claims
    ensures (forall i :: 0 <= i < |claims| ==> !claims[i].NameIdentifierClaim?) ==> p.login == ""
    ensures forall i :: 0 <= i < |claims| && claims[i].NameIdentifierClaim? &&
                        (forall j :: 0 <= j < i ==> !claims[j].NameIdentifierClaim?) ==>
                          p.login == claims[i].value
  {
    if claims == [] then Principal("", {})
    else
      var rest := PrincipalOf(claims[1..]);
      assert claims == [claims[0]] + claims[1..];
      match claims[0]
      case NameIdentifierClaim(login) => Principal(login, rest.roles)
      case NameClaim(_) => rest
      case RoleClaim(role) => Principal(rest.login, {role} + rest.roles)
  }

  /** Every stored account, revoked or not, authenticates with its own login and password
      and receives exactly its login and name as claims. */
  lemma CredentialsAuthenticate(rs: seq<UserRecord>, k: nat)
    requires StoreInvariant(rs) && k < |rs|
    ensures Authenticate(Decoded(rs[k].login + [':'] + rs[k].password), rs) == Success(IssuedClaims(rs[k]))
    ensures PrincipalOf(IssuedClaims(rs[k])).login == rs[k].login
  {
    var u := rs[k];
    FieldRules.CredentialHasNoColon(u.login);
    SplitRecoversCredentials(u.login, u.password);
    assert (u.login + [':'] + u.password)[|u.login|] == ':';
    var c := FindCredentials(rs, u.login, u.password);
    assert HasCredentials(rs, u.login, u.password);
    assert rs[c.value].login == rs[k].login;
  }

  /** As written, no successful authentication grants a role, so no caller is ever in the
      Administrator role (nor in the User role the change actions ask for). */
  lemma AdministratorClaimDropped(header: AuthorizationHeader, rs: seq<UserRecord>)
    ensures Authenticate(header, rs).Success? ==>
              PrincipalOf(Authenticate(header, rs).claims).roles == {}
  {
  }

  /** The claims the handler evidently meant to issue: the login and the name, the `User` role
      that every `[Authorize(Roles = "User")]` action of the controller asks for, and, as the
      comment at line 76 of BasicAuthenticationHandler.cs says, the Administrator role for an admin. */
  function IntendedClaims(u: UserRecord): seq<Claim> {
    IssuedClaims(u) + [RoleClaim(UserRole)] + (if u.admin then [RoleClaim(AdministratorRole)] else [])
  }

  /** The handler with the role claims kept. */
  function AuthenticateIntended(header: AuthorizationHeader, rs: seq<UserRecord>): (r: AuthenticateResult)
    ensures r.NoResult? <==> header.Absent?
    ensures r.Fail? <==> Verify(header, rs).Rejected?
    ensures r.Fail? ==> r.reason == Verify(header, rs).reason
    ensures r.Success? ==> r.claims == IntendedClaims(Verify(header, rs).user)
  {
    match Verify(header, rs)
    case NoCredentials => NoResult
    case Rejected(reason) => Fail(reason)
    case Verified(u) => Success(IntendedClaims(u))
  }

  /** With the role claims kept, a stored account's principal carries its login, is in the
      `User` role, and is an Administrator exactly when its account is an admin. */
  lemma IntendedAdministratorRole(rs: seq<UserRecord>, k: nat)
    requires StoreInvariant(rs) && k < |rs|
    ensures var r := AuthenticateIntended(Decoded(rs[k].login + [':'] + rs[k].password), rs);
            && r.Success?
            && PrincipalOf(r.claims).login == rs[k].login
            && UserRole in PrincipalOf(r.claims).roles
            && (AdministratorRole in PrincipalOf(r.claims).roles <==> rs[k].admin)
  {
    CredentialsAuthenticate(rs, k);
    var claims := IntendedClaims(rs[k]);
    assert claims[0] == NameIdentifierClaim(rs[k].login);
    assert RoleClaim(UserRole) in claims;
    assert RoleClaim(AdministratorRole) in claims <==> rs[k].admin;
  }

  const SeedLogin := "admin"
  const SeedPassword := "admin123"
  const SeedName := "Администратор"

  /** The account the handler's constructor creates; its birthday (twenty years before
      now in the source) is supplied by the caller. */
  function SeedAdmin(guid: nat, now: int, birthday: int): UserRecord {
    UserRecord(guid, SeedLogin, SeedPassword, SeedName, 2, Some(birthday), true, now, "", None, None, None, None)
  }

  /** The seed account passes the store's record rules. */
  lemma SeedAdminIsWellFormed(guid: nat, now: int, birthday: int)
    ensures WellFormed(SeedAdmin(guid, now, birthday))
  {
  }

  /** Builds the seed account object: the `User` constructor followed by the three property settings. */
  method NewSeedAdmin(guid: nat, now: int, birthday: int) returns (admin: User)
    ensures fresh(admin)
    ensures admin.Record() == SeedAdmin(guid, now, birthday)
  {
    admin := new User(guid, SeedLogin, SeedPassword, SeedName, now, "");
    admin.gender := 2;
    admin.birthday := Some(birthday);
    admin.admin := true;
  }

  /** The store after seeding: unchanged when a user called `admin` exists, otherwise with the seed appended. */
  function Seeded(rs: seq<UserRecord>, seed: UserRecord): (r: seq<UserRecord>)
    requires seed.login == SeedLogin
    ensures HasLogin(r, SeedLogin)
    ensures HasLogin(rs, SeedLogin) ==> r == rs
    ensures !HasLogin(rs, SeedLogin) ==> r == rs + [seed]
  {
    if FindLogin(rs, SeedLogin).Some? then rs
    else
      assert (rs + [seed])[|rs|].login == SeedLogin;
      rs + [seed]
  }

  /** Seeding twice is seeding once. */
  lemma SeedingIsIdempotent(rs: seq<UserRecord>, first: UserRecord, second: UserRecord)
    requires first.login == SeedLogin && second.login == SeedLogin
    ensures Seeded(Seeded(rs, first), second) == Seeded(rs, first)
  {
  }

  class BasicAuthenticationHandler {
    const context: UserStore

    /** The constructor looks for a user called `admin` and, when there is none, adds the seed
        account. `guid` stands for `Guid.NewGuid()`: a key no stored user holds. */
    constructor (context: UserStore, guid: nat, now: int, seedBirthday: int)
      requires context.Valid()
      requires !HasGuid(context.Records(), guid)
      modifies context
      ensures this.context == context && context.Valid()
      ensures context.Records() == Seeded(old(context.Records()), SeedAdmin(guid, now, seedBirthday))
      ensures var n := |old(context.users)|;
              || context.users == old(context.users)
              || (|context.users| == n + 1 && context.users[..n] == old(context.users) && fresh(context.users[n]))
    {
      this.context := context;
      var existing := FindLogin(context.Records(), SeedLogin);
      if existing.None? {
        ghost var rs := context.Records();
        var admin := NewSeedAdmin(guid, now, seedBirthday);
        SeedAdminIsWellFormed(guid, now, seedBirthday);
        AppendKeepsInvariant(rs, admin.Record());
        var _ := context.AddUser(admin);
      }
    }

    /** `HandleAuthenticateAsync` on the current contents of the store; it reads and never writes. */
    function HandleAuthenticate(header: AuthorizationHeader): (r: AuthenticateResult)
      reads context, context.users
      ensures r.NoResult? <==> header.Absent?
      ensures r.Fail? <==> Verify(header, context.Records()).Rejected?
      ensures r.Fail? ==> r.reason == Verify(header, context.Records()).reason
      ensures r.Success? ==> r.claims == IssuedClaims(Verify(header, context.Records()).user)
    {
      Authenticate(header, context.Records())
    }
  }
}

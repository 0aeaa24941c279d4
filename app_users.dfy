/** `AppUserServiceImpl`: the registry of wallet users. Registration refuses
    a username that is taken, then an email that is taken, and otherwise
    stores a new user under a fresh id with the encoded password. The
    repository is a sequence of users; its `save` replaces the user with the
    same id or appends a new one. */
module AppUsers {
  import opened Common

  /** A `java.util.UUID`. */
  type Uuid = nat

  datatype AppUser = AppUser(id: Uuid, username: string, email: string, password: string)

  /** `AppUserRequestDTO`. */
  datatype AppUserRequest = AppUserRequest(username: string, email: string, password: string)

  type Users = seq<AppUser>

  /** Ids, usernames and emails are each held by at most one user. */
  predicate Unique(users: Users)
  {
    forall i, j :: 0 <= i < j < |users| ==>
      users[i].id != users[j].id && users[i].username != users[j].username && users[i].email != users[j].email
  }

  predicate IdInUse(users: Users, id: Uuid)
  {
    exists i :: 0 <= i < |users| && users[i].id == id
  }

  predicate UsernameTaken(users: Users, username: string)
  {
    exists i :: 0 <= i < |users| && users[i].username == username
  }

  predicate EmailTaken(users: Users, email: string)
  {
    exists i :: 0 <= i < |users| && users[i].email == email
  }

  /** `findAppUserByUsername`. */
  function FindByUsername(users: Users, username: string): (r: Option<AppUser>)
    ensures r.Some? <==> UsernameTaken(users, username)
    ensures r.Some? ==> r.value in users && r.value.username == username
  {
    if |users| == 0 then None
    else if users[0].username == username then Some(users[0])
    else
      var rest := FindByUsername(users[1..], username);
      assert UsernameTaken(users[1..], username) ==> UsernameTaken(users, username);
      rest
  }

  /** `findAppUserByEmail`. */
  function FindByEmail(users: Users, email: string): (r: Option<AppUser>)
    ensures r.Some? <==> EmailTaken(users, email)
    ensures r.Some? ==> r.value in users && r.value.email == email
  {
    if |users| == 0 then None
    else if users[0].email == email then Some(users[0])
    else
      var rest := FindByEmail(users[1..], email);
      assert EmailTaken(users[1..], email) ==> EmailTaken(users, email);
      rest
  }

  /** `findById`. */
  function FindById(users: Users, id: Uuid): (r: Option<AppUser>)
    ensures r.Some? <==> IdInUse(users, id)
    ensures r.Some? ==> r.value in users && r.value.id == id
  {
    if |users| == 0 then None
    else if users[0].id == id then Some(users[0])
    else
      var rest := FindById(users[1..], id);
      assert IdInUse(users[1..], id) ==> IdInUse(users, id);
      rest
  }

  /** `CrudRepository.save`: overwrite the user with the same id, or insert. */
  function SaveUser(users: Users, user: AppUser): (r: Users)
    ensures !IdInUse(users, user.id) ==> r == users + [user]
    ensures IdInUse(users, user.id) ==> |r| == |users| && user in r
    ensures forall i :: 0 <= i < |users| && users[i].id != user.id ==> r[i] == users[i]
  {
    if |users| == 0 then [user]
    else if users[0].id == user.id then [user] + users[1..]
    else
      assert IdInUse(users[1..], user.id) ==> IdInUse(users, user.id);
      [users[0]] + SaveUser(users[1..], user)
  }

  function UsernameExistsMessage(username: string): string
  {
    "Username already exists: " + username
  }

  function EmailExistsMessage(email: string): string
  {
    "Email already exists: " + email
  }

  /** `registerUser`, as a function of the stored users: the username check,
      then the email check, then the save of the new user. */
  function Register(users: Users, request: AppUserRequest, freshId: Uuid, encodedPassword: string): (r: Result<Users>)
    ensures r.Ok? ==> !UsernameTaken(users, request.username) && !EmailTaken(users, request.email)
    ensures r.Ok? ==> AppUser(freshId, request.username, request.email, encodedPassword) in r.value
  {
    if FindByUsername(users, request.username).Some? then
      Err(UsernameAlreadyExists(UsernameExistsMessage(request.username)))
    else if FindByEmail(users, request.email).Some? then
      Err(EmailAlreadyExists(EmailExistsMessage(request.email)))
    else
      Ok(SaveUser(users, AppUser(freshId, request.username, request.email, encodedPassword)))
  }

  /** Registration fails exactly when the username or the email is taken;
      a taken username is reported even when the email is taken too. */
  lemma RegisterOutcome(users: Users, request: AppUserRequest, freshId: Uuid, encodedPassword: string)
    ensures var r := Register(users, request, freshId, encodedPassword);
      && (r.Err? <==> UsernameTaken(users, request.username) || EmailTaken(users, request.email))
      && (UsernameTaken(users, request.username) ==>
            r == Err(UsernameAlreadyExists(UsernameExistsMessage(request.username))))
      && (!UsernameTaken(users, request.username) && EmailTaken(users, request.email) ==>
            r == Err(EmailAlreadyExists(EmailExistsMessage(request.email))))
  {
  }

  /** A successful registration adds exactly one user, with the requested
      username and email and the encoded password, after the users already
      there. */
  lemma RegisterAppends(users: Users, request: AppUserRequest, freshId: Uuid, encodedPassword: string)
    requires !IdInUse(users, freshId)
    requires Register(users, request, freshId, encodedPassword).Ok?
    ensures Register(users, request, freshId, encodedPassword).value
         == users + [AppUser(freshId, request.username, request.email, encodedPassword)]
  {
  }

  /** A successful registration keeps ids, usernames and emails unique. */
  lemma RegisterKeepsUnique(users: Users, request: AppUserRequest, freshId: Uuid, encodedPassword: string)
    requires Unique(users) && !IdInUse(users, freshId)
    requires Register(users, request, freshId, encodedPassword).Ok?
    ensures Unique(Register(users, request, freshId, encodedPassword).value)
  {
    var added := AppUser(freshId, request.username, request.email, encodedPassword);
    var r := users + [added];
    assert Register(users, request, freshId, encodedPassword).value == r;
    forall i, j | 0 <= i < j < |r|
      ensures r[i].id != r[j].id && r[i].username != r[j].username && r[i].email != r[j].email
    {
      if j == |users| {
        assert r[i] == users[i] && r[j] == added;
      }
    }
  }

  /** In a registry with unique usernames and emails, the new user is the
      one found by its username and by its email. */
  lemma {:induction false} FindAfterRegister(users: Users, request: AppUserRequest, freshId: Uuid, encodedPassword: string)
    requires Unique(users) && !IdInUse(users, freshId)
    requires Register(users, request, freshId, encodedPassword).Ok?
    ensures var added := AppUser(freshId, request.username, request.email, encodedPassword);
      var r := Register(users, request, freshId, encodedPassword).value;
      FindByUsername(r, request.username) == Some(added) && FindByEmail(r, request.email) == Some(added)
  {
    var added := AppUser(freshId, request.username, request.email, encodedPassword);
    RegisterKeepsUnique(users, request, freshId, encodedPassword);
    var r := users + [added];
    FoundIsUnique(r, |users|);
  }

  /** With unique usernames and emails, a lookup finds the one user holding
      the name or the address. */
  lemma {:induction false} FoundIsUnique(users: Users, k: nat)
    requires Unique(users) && k < |users|
    ensures FindByUsername(users, users[k].username) == Some(users[k])
    ensures FindByEmail(users, users[k].email) == Some(users[k])
  {
    if k > 0 {
      assert Unique(users[1..]) by {
        forall i, j | 0 <= i < j < |users| - 1
          ensures users[1..][i].id != users[1..][j].id
        {
          assert users[1..][i] == users[i + 1] && users[1..][j] == users[j + 1];
        }
      }
      FoundIsUnique(users[1..], k - 1);
      assert users[1..][k - 1] == users[k];
    }
  }

  /** `AppUserServiceImpl` over its repository. */
  class AppUserService {
    var users: Users

    constructor ()
      ensures users == [] && Valid()
    {
      users := [];
    }

    predicate Valid()
      reads this
    {
      Unique(users)
    }

    /** `checkIfUserExists`. */
    method CheckIfUserExists(username: string) returns (r: Result<AppUser>)
      ensures r.Ok? <==> UsernameTaken(users, username)
      ensures r.Ok? ==> r.value in users && r.value.username == username
      ensures r.Err? ==> r.error == NoSuchElement("The username " + username + " does not exist.")
    {
      var userFound := GetUserByUsername(username);
      if userFound.Some? {
        r := Ok(userFound.value);
      } else {
        r := Err(NoSuchElement("The username " + username + " does not exist."));
      }
    }

    /** `getUserWithContextAuthentication`, given the name of the
        authenticated principal: `Optional.get` on no user throws. */
    method GetUserWithContextAuthentication(principal: string) returns (r: Result<AppUser>)
      ensures r.Ok? <==> UsernameTaken(users, principal)
      ensures r.Ok? ==> r.value in users && r.value.username == principal
      ensures r.Err? ==> r.error == NoSuchElement("No value present")
    {
      var userFound := GetUserByUsername(principal);
      if userFound.Some? {
        r := Ok(userFound.value);
      } else {
        r := Err(NoSuchElement("No value present"));
      }
    }

    /** `registerUser`; `freshId` stands for `UUID.randomUUID()` and
        `encodedPassword` for the BCrypt encoding of the request's password. */
    method RegisterUser(request: AppUserRequest, freshId: Uuid, encodedPassword: string) returns (r: Result<()>)
      requires Valid() && !IdInUse(users, freshId)
      modifies this
      ensures Valid()
      ensures var registered := Register(old(users), request, freshId, encodedPassword);
        && (registered.Ok? ==> r == Ok(()) && users == registered.value)
        && (registered.Err? ==> r == Err(registered.error) && users == old(users))
    {
      var usernameFree :- CheckIfUsernameAlreadyExist(request);
      var emailFree :- CheckIfEmailAlreadyExist(request);
      RegisterKeepsUnique(users, request, freshId, encodedPassword);
      var appUser := AppUser(freshId, request.username, request.email, encodedPassword);
      users := SaveUser(users, appUser);
      r := Ok(());
    }

    /** `getUsers`: every stored user, in repository order. */
    method GetUsers() returns (r: seq<AppUser>)
      ensures r == users
    {
      r := users;
    }

    method GetUserById(id: Uuid) returns (r: Option<AppUser>)
      ensures r.Some? <==> IdInUse(users, id)
      ensures r.Some? ==> r.value in users && r.value.id == id
    {
      r := FindById(users, id);
    }

    method GetUserByUsername(username: string) returns (r: Option<AppUser>)
      ensures r.Some? <==> UsernameTaken(users, username)
      ensures r.Some? ==> r.value in users && r.value.username == username
    {
      r := FindByUsername(users, username);
    }

    method GetUserByEmail(email: string) returns (r: Option<AppUser>)
      ensures r.Some? <==> EmailTaken(users, email)
      ensures r.Some? ==> r.value in users && r.value.email == email
    {
      r := FindByEmail(users, email);
    }

    /** `checkIfUsernameAlreadyExist`. */
    method CheckIfUsernameAlreadyExist(request: AppUserRequest) returns (r: Result<()>)
      ensures r.Err? <==> UsernameTaken(users, request.username)
      ensures r.Err? ==> r.error == UsernameAlreadyExists(UsernameExistsMessage(request.username))
    {
      var found := GetUserByUsername(request.username);
      if found.Some? {
        r := Err(UsernameAlreadyExists(UsernameExistsMessage(request.username)));
      } else {
        r := Ok(());
      }
    }

    /** `checkIfEmailAlreadyExist`. */
    method CheckIfEmailAlreadyExist(request: AppUserRequest) returns (r: Result<()>)
      ensures r.Err? <==> EmailTaken(users, request.email)
      ensures r.Err? ==> r.error == EmailAlreadyExists(EmailExistsMessage(request.email))
    {
      var found := GetUserByEmail(request.email);
      if found.Some? {
        r := Err(EmailAlreadyExists(EmailExistsMessage(request.email)));
      } else {
        r := Ok(());
      }
    }
  }
}

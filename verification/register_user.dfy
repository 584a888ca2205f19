/** The registration use case: refuse an email or phone that some stored
    user already has, otherwise hash the password and create the user.
    The password hasher is a parameter; `FakeHasher` is the one the tests
    supply. */
module RegisterNewUser {
  import opened Wrappers
  import opened BaseRepository
  import opened UsersRepository
  import FakeHasher

  datatype RegisterInput = RegisterInput(name: string, email: string, password: string, phone: string)

  datatype RegisterOutput = RegisterOutput(userId: string)

  /** The use case's only error. */
  datatype RegisterError = UserAlreadyExists

  /** The fields the use case hands to `create`. */
  function UserData(input: RegisterInput, hashedPassword: string): map<string, string> {
    map["name" := input.name, "email" := input.email, "password" := hashedPassword, "phone" := input.phone]
  }

  /** The email or the phone of `input` is already taken. */
  ghost predicate Taken(users: seq<Record>, input: RegisterInput) {
    AnyHolds(users, "email", input.email) || AnyHolds(users, "phone", input.phone)
  }

  /** `execute`: both lookups, then either the error or hash-and-create.
      `freshId` stands for the id `create` generates. */
  function Execute(users: seq<Record>, input: RegisterInput, hash: string -> string, freshId: string)
    : (r: Result<(seq<Record>, RegisterOutput), RegisterError>)
    ensures r.Err? <==> Taken(users, input)
    ensures r.Ok? ==> |r.value.0| == |users| + 1 && r.value.0[..|users|] == users
    ensures r.Ok? ==> var u := r.value.0[|users|];
                      && u.Keys == {"id", "name", "email", "password", "phone"}
                      && u["id"] == freshId
                      && u["name"] == input.name && u["email"] == input.email && u["phone"] == input.phone
                      && u["password"] == hash(input.password)
    ensures r.Ok? ==> r.value.1.userId == freshId
  {
    var sameEmail := FindByEmail(users, input.email);
    var samePhone := FindByPhone(users, input.phone);
    if sameEmail.Some? || samePhone.Some? then
      Err(UserAlreadyExists)
    else
      var (users', user) := Create(users, UserData(input, hash(input.password)), freshId);
      assert users'[..|users|] == users;
      Ok((users', RegisterOutput(user["id"])))
  }

  /** Registration keeps emails, phones and (for an unused fresh id) ids
      pairwise distinct. */
  lemma ExecuteKeepsDistinct(users: seq<Record>, input: RegisterInput, hash: string -> string, freshId: string)
    requires Distinct(users, "email") && Distinct(users, "phone") && Distinct(users, "id")
    requires !AnyHolds(users, "id", freshId)
    requires Execute(users, input, hash, freshId).Ok?
    ensures var users' := Execute(users, input, hash, freshId).value.0;
            Distinct(users', "email") && Distinct(users', "phone") && Distinct(users', "id")
  {
    var users' := Execute(users, input, hash, freshId).value.0;
    var u := users'[|users|];
    assert users' == users + [u];
    DistinctAppend(users, u, "email");
    DistinctAppend(users, u, "phone");
    DistinctAppend(users, u, "id");
  }

  /** A failed registration changes nothing; the repository is handed back
      only on success. */
  lemma ExecuteFailsWithoutChange(users: seq<Record>, input: RegisterInput, hash: string -> string, freshId: string)
    requires Taken(users, input)
    ensures Execute(users, input, hash, freshId) == Err(UserAlreadyExists)
  {
  }

  /** After a registration, a second one with the same email or the same
      phone fails. */
  lemma SecondRegistrationFails(users: seq<Record>, first: RegisterInput, second: RegisterInput,
                                hash: string -> string, id1: string, id2: string)
    requires Execute(users, first, hash, id1).Ok?
    requires second.email == first.email || second.phone == first.phone
    ensures Execute(Execute(users, first, hash, id1).value.0, second, hash, id2) == Err(UserAlreadyExists)
  {
    var users' := Execute(users, first, hash, id1).value.0;
    var u := users'[|users|];
    if second.email == first.email {
      assert Holds(u, "email", second.email);
    } else {
      assert Holds(u, "phone", second.phone);
    }
  }

  /** The registered user is what both lookups return for its email and
      phone. */
  lemma RegisteredUserFound(users: seq<Record>, input: RegisterInput, hash: string -> string, freshId: string)
    requires Execute(users, input, hash, freshId).Ok?
    ensures var users' := Execute(users, input, hash, freshId).value.0;
            && FindByEmail(users', input.email) == Some(users'[|users|])
            && FindByPhone(users', input.phone) == Some(users'[|users|])
  {
    var data := UserData(input, hash(input.password));
    assert Execute(users, input, hash, freshId).value.0 == Create(users, data, freshId).0;
    CreateThenFindByEmail(users, data, freshId);
    CreateThenFindByPhone(users, data, freshId);
  }

  /** With the test hasher, the stored password is the "-hashed" digest and
      the plain password matches it. */
  lemma FakeHashedPasswordMatches(users: seq<Record>, input: RegisterInput, freshId: string)
    requires Execute(users, input, FakeHasher.Hash, freshId).Ok?
    ensures var stored := Execute(users, input, FakeHasher.Hash, freshId).value.0[|users|]["password"];
            && stored == input.password + FakeHasher.Suffix
            && FakeHasher.Compare(input.password, stored)
  {
    FakeHasher.CompareHash(input.password);
  }

  /** An empty repository accepts any registration, and the new id is the
      one returned. */
  lemma RegisterIntoEmpty(input: RegisterInput, hash: string -> string, freshId: string)
    ensures Execute([], input, hash, freshId).Ok?
    ensures Execute([], input, hash, freshId).value.1 == RegisterOutput(freshId)
  {
  }
}

/** The in-memory users repository: the base repository over user records,
    plus the two exact-match lookups. A user's `email` and `phone` are
    fields of the record; `phone` is optional and may be absent. */
module UsersRepository {
  import opened Wrappers
  import opened BaseRepository

  /** `findByEmail`: the first user, in stored order, whose email is exactly
      `email` (case-sensitive), or null. */
  function FindByEmail(users: seq<Record>, email: string): (r: Option<Record>)
    ensures r.None? <==> forall i :: 0 <= i < |users| ==> !Holds(users[i], "email", email)
    ensures r.Some? ==> "email" in r.value && r.value["email"] == email
    ensures r.Some? ==> exists i :: 0 <= i < |users| && users[i] == r.value
                                  && (forall j :: 0 <= j < i ==> !Holds(users[j], "email", email))
  {
    FindFirst(users, "email", email)
  }

  /** `findByPhone`: the first user whose phone is exactly `phone`, or null.
      A user without a phone never matches. */
  function FindByPhone(users: seq<Record>, phone: string): (r: Option<Record>)
    ensures r.None? <==> forall i :: 0 <= i < |users| ==> !Holds(users[i], "phone", phone)
    ensures r.Some? ==> "phone" in r.value && r.value["phone"] == phone
    ensures r.Some? ==> exists i :: 0 <= i < |users| && users[i] == r.value
                                  && (forall j :: 0 <= j < i ==> !Holds(users[j], "phone", phone))
  {
    FindFirst(users, "phone", phone)
  }

  /** A user created with an email is found by that email afterwards; when
      no earlier user had it, the lookup returns the new user itself. */
  lemma CreateThenFindByEmail(users: seq<Record>, data: map<string, string>, freshId: string)
    requires "email" in data
    ensures FindByEmail(Create(users, data, freshId).0, data["email"]).Some?
    ensures !AnyHolds(users, "email", data["email"]) ==>
              FindByEmail(Create(users, data, freshId).0, data["email"]) == Some(Create(users, data, freshId).1)
  {
    FindFirstAppend(users, Create(users, data, freshId).1, "email", data["email"]);
  }

  /** A user created with a phone is found by that phone afterwards; when no
      earlier user had it, the lookup returns the new user itself. */
  lemma CreateThenFindByPhone(users: seq<Record>, data: map<string, string>, freshId: string)
    requires "phone" in data
    ensures FindByPhone(Create(users, data, freshId).0, data["phone"]).Some?
    ensures !AnyHolds(users, "phone", data["phone"]) ==>
              FindByPhone(Create(users, data, freshId).0, data["phone"]) == Some(Create(users, data, freshId).1)
  {
    FindFirstAppend(users, Create(users, data, freshId).1, "phone", data["phone"]);
  }

  /** Creating a user with some other email, or none, leaves every other
      email lookup as it was. */
  lemma CreateKeepsOtherEmails(users: seq<Record>, data: map<string, string>, freshId: string, email: string)
    requires !("email" in data && data["email"] == email)
    ensures FindByEmail(Create(users, data, freshId).0, email) == FindByEmail(users, email)
  {
    FindFirstAppend(users, Create(users, data, freshId).1, "email", email);
  }

  /** Creating a user with some other phone, or none, leaves every other
      phone lookup as it was. */
  lemma CreateKeepsOtherPhones(users: seq<Record>, data: map<string, string>, freshId: string, phone: string)
    requires !("phone" in data && data["phone"] == phone)
    ensures FindByPhone(Create(users, data, freshId).0, phone) == FindByPhone(users, phone)
  {
    FindFirstAppend(users, Create(users, data, freshId).1, "phone", phone);
  }
}

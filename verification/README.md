# moovilog-api-v2: the in-memory repositories, user registration and the origin guard

This Dafny project models the data-handling core of the moovilog API:

- **BaseRepository** is the generic in-memory repository (`InMemoryBaseModelRepository`):
  - an ordered sequence of records;
  - `create`, `update`, `delete`, `findById` and the private `_get`;
  - the `find` query, which filters, then sorts, then cuts out one page.

  The store is passed in and handed back. An operation that fails with `NotFoundError` (the `NotFound` value here) leaves the store unchanged.
- **Sorting** holds the stable ordering `applySort` delegates to `Array.prototype.sort`.
- **Strings** holds the string primitives the code uses:
  - `toLowerCase`;
  - `includes` and `startsWith`;
  - the `<` order on strings.
- **Seqs** holds `Array.prototype.filter`.
- **StubRepository** is the concrete repository the base repository's tests run against:
  - `name` is its only sortable field;
  - its filter keeps the records whose name contains the filter text, ignoring case;
  - its lemmas state each `find` scenario of the tests over the tests' own fixtures.
- **UsersRepository** holds `findByEmail` and `findByPhone`.
- **FakeHasher** is the test hasher. It appends `-hashed` to the password.
- **RegisterNewUser** is the registration use case:
  - it refuses an email or phone that is already stored;
  - otherwise it hashes the password and creates the user.
- **OriginGuard** is the `onRequest` hook in `app.ts`. It answers 403 unless the `Origin` or `Referer` header points at `ALLOWED_ORIGIN_URL`.

Wrappers supplies `Option` and `Result`.

## Modelling choices

- A record is a `map<string, string>` that always has an `"id"` field.
- A field that is absent is `undefined` in JavaScript. `undefined` equals no string, so a lookup by `email` or `phone` never matches a user that lacks the field (`phone` is optional on a user).
- Outside sources are parameters:
  - the UUID from `randomUUID` is `freshId`;
  - the password hasher is a function `hash`;
  - the repository's filter stage is a `FilterStage` function;
  - the allowed origin URL is `allowed`.
- `page ?? 1` and `perPage ?? 10` are `Option.GetOr`. For data whose fields all hold strings, `{id: data.id ?? uuid, ...data}` is `map["id" := freshId] + data`: a caller-supplied id wins. A field explicitly set to `undefined` or `null` has no counterpart in a map; see "## Left out".
- `Array.prototype.slice` is modelled with its full index rules:
  - a negative index counts from the end;
  - indices are clamped to the length.

  So a page number of 0 or below, or a negative `perPage`, gives the same items JavaScript does.
- The comparator in `applySort` has three outcomes:
  - -1 when the pair is in order;
  - 1 when it is reversed;
  - 0 when the keys are equal.

  Only `sortDir === 'ASC'` sorts ascending, so `'DESC'` and a missing `sortDir` both sort descending. `Array.prototype.sort` is stable, so the model sorts by insertion, which is stable. `SortByIsTheStableSort` shows that this is the only ordered, tie-preserving rearrangement.
- String comparison compares characters one by one, and a proper prefix comes first.
- `toLowerCase` maps `A`–`Z` to `a`–`z` and leaves every other character unchanged.
- The registration use case looks up the email and phone with `Promise.all`. Both lookups are pure reads, so the model performs them one after the other.
- `OriginGuard.Sent` treats a header as sent only when it is present and non-empty. JavaScript's `!referer` is true for both `undefined` and `''`.

The origin guard has two properties a reader may not expect:

- The origin test is `ALLOWED_ORIGIN_URL.includes(origin)`, containment rather than equality. Any non-empty piece of the allowed URL is accepted as an origin (`SubstringOriginAllowed`).
- The referer test is `startsWith`, so any URL that begins with the allowed URL is accepted (`RefererUnderAllowed`).

The model keeps both properties as the code has them.

## Model

| member | source | states |
|---|---|---|
| BaseRepository.IndexOf | src/shared/domain/in-memory-base-model-repository.ts:27 | `findIndex` answers the position of the first record whose field has the value, and answers "none" exactly when no record has it |
| BaseRepository.FindFirst | src/shared/domain/in-memory-base-model-repository.ts:96 | `find` answers the first matching record in stored order, and answers nothing exactly when no record matches |
| BaseRepository.FindFirstAppend | src/shared/domain/in-memory-base-model-repository.ts:20 | appending a record changes a lookup only when no earlier record matched, and then the lookup answers the appended record if it matches |
| BaseRepository.Get | src/shared/domain/in-memory-base-model-repository.ts:95-103 | `_get` fails with NotFound for the id exactly when no record has that id, and otherwise answers the first record with it |
| BaseRepository.Create | src/shared/domain/in-memory-base-model-repository.ts:14-23 | the store grows by exactly the returned record; that record has every field of the data plus `id`, and the generated id only when the data carries none |
| BaseRepository.Update | src/shared/domain/in-memory-base-model-repository.ts:25-35 | fails with NotFound exactly when the id is absent; otherwise only the first record with the id is replaced, by the shallow merge in which every patch field overwrites and every other field is kept, and the store keeps its length |
| BaseRepository.Delete | src/shared/domain/in-memory-base-model-repository.ts:37-43 | fails with NotFound exactly when the id is absent; otherwise removes exactly the first record with the id, keeps the rest in order, and answers true |
| BaseRepository.FindById | src/shared/domain/in-memory-base-model-repository.ts:45-50 | fails with NotFound exactly when the id is absent, otherwise answers the first record with that id |
| BaseRepository.CreateThenFindById | src/shared/domain/in-memory-base-model-repository.spec.ts:107-119 | round trip: a record created under an unused id is exactly what `findById` then answers |
| BaseRepository.DeleteUndoesCreate | src/shared/domain/in-memory-base-model-repository.spec.ts:87-99 | deleting a freshly created record gives back the original store and answers true |
| BaseRepository.UpdateThenFindById | src/shared/domain/in-memory-base-model-repository.spec.ts:58-75 | an update of a stored id that keeps the id succeeds, and `findById` then sees the merged record |
| BaseRepository.CountIdPositive | src/shared/domain/in-memory-base-model-repository.ts:96-100 | an id is found exactly when at least one stored record carries it |
| BaseRepository.DeleteRemovesOne | src/shared/domain/in-memory-base-model-repository.ts:39-41 | a successful delete lowers the number of records with that id by exactly one |
| BaseRepository.DistinctIdsCountAtMostOne | src/shared/domain/in-memory-base-model-repository.ts:96 | when no two records share an id, each id is carried by at most one record |
| BaseRepository.DeleteTwiceNotFound | src/shared/domain/in-memory-base-model-repository.ts:37-43 | with ids unique, deleting the same id a second time fails with NotFound |
| BaseRepository.DirectionOf | src/shared/domain/in-memory-base-model-repository.ts:82-83 | the order is ascending exactly when the direction is 'ASC'; 'DESC' and a missing direction both sort descending |
| BaseRepository.ApplySort | src/shared/domain/in-memory-base-model-repository.ts:76-86 | without a non-empty sortable field (`SortActive`, the guard at :77) the records come back unchanged; otherwise the result is a permutation that is ordered by the field and keeps records with equal keys in their stored order |
| BaseRepository.SliceIndex | src/shared/domain/in-memory-base-model-repository.ts:92 | a slice argument lands inside `0..length`; a negative one counts back from the end |
| BaseRepository.SliceIndexMonotone | src/shared/domain/in-memory-base-model-repository.ts:92 | slice indices of one sign keep their order and are never further apart than the arguments |
| BaseRepository.Slice | src/shared/domain/in-memory-base-model-repository.ts:92 | `slice` answers one contiguous window of the sequence, empty when start equals end; for arguments of one sign it is no longer than `end - start`, and for non-negative arguments it is the clamped window (for mixed signs it can be longer: `slice(2, -3)` of ten elements gives five) |
| BaseRepository.PageStart | src/shared/domain/in-memory-base-model-repository.ts:89 | for `perPage >= 0`: page 1 and later start at or after index 0, and pages 0 and below end at or before index 0 (a negative `perPage` promises neither) |
| BaseRepository.ApplyPaginate | src/shared/domain/in-memory-base-model-repository.ts:88-93 | a page is always a contiguous window of the items, and empty for `perPage` 0; for `perPage >= 0` it holds at most `perPage` items, and from page 1 on it is the window `[(page-1)*perPage, page*perPage)` clamped to the length; a negative `perPage` follows `slice`'s negative-index rule instead |
| Wrappers.Option.GetOr | src/shared/domain/in-memory-base-model-repository.ts:53-54 | `??` answers the present value, and the default only when the value is absent |
| BaseRepository.Find | src/shared/domain/in-memory-base-model-repository.ts:52-72 | `total` is the number of filtered records; the page and per-page values default to 1 and 10 (`??`, via `Wrappers.Option.GetOr`), as in the `FindInput`/`FindOutput` types; sort, direction and filter are echoed; the page is a sub-multiset of the filtered records, and for `perPage >= 0` holds at most `perPage` of them |
| BaseRepository.FindPipeline | src/shared/domain/in-memory-base-model-repository.ts:59-61 | the items of `find` are the requested page of the sorted, filtered records, with the defaults applied |
| BaseRepository.FindSorted | src/shared/domain/in-memory-base-model-repository.ts:60-61 | with a sortable field, every page that `find` answers is in order |
| BaseRepository.FindUnsorted | src/shared/domain/in-memory-base-model-repository.ts:77-79 | without a sortable field, `find` pages the filtered records in stored order |
| BaseRepository.WindowMultiset | src/shared/domain/in-memory-base-model-repository.ts:92 | a slice holds no element more often than the sequence it is cut from |
| BaseRepository.WindowSorted | src/shared/domain/in-memory-base-model-repository.ts:92 | a slice of an ordered sequence is ordered |
| BaseRepository.PageLocates | src/shared/domain/in-memory-base-model-repository.ts:88-93 | element `i` is at position `i % perPage` of page `i / perPage + 1` |
| BaseRepository.PageBeyondEndEmpty | src/shared/domain/in-memory-base-model-repository.ts:88-93 | a page that starts at or past the end of the items is empty, not an error |
| BaseRepository.PagesArePrefix | src/shared/domain/in-memory-base-model-repository.ts:88-93 | pages 1 to n laid end to end are the first `n * perPage` elements, so no element is skipped or repeated between pages |
| BaseRepository.FindPageLocates | src/shared/domain/in-memory-base-model-repository.ts:52-72 | paging through `find` reaches every filtered, sorted record, at the page and offset its index gives |
| BaseRepository.TotalIndependentOfPage | src/shared/domain/in-memory-base-model-repository.ts:66 | `total` does not depend on the page or page size asked for |
| Sorting.SortBy | src/shared/domain/in-memory-base-model-repository.ts:81-85 | sorting is a permutation: same length, same multiset of records |
| Sorting.SortBySorted | src/shared/domain/in-memory-base-model-repository.ts:81-85 | the sorted sequence has no pair in the wrong order for the comparator's direction |
| Sorting.SortByStable | src/shared/domain/in-memory-base-model-repository.ts:84 | records whose keys compare equal keep their relative order |
| Sorting.SortedTiesUnique | src/shared/domain/in-memory-base-model-repository.ts:81-85 | two ordered sequences with the same records under each key, in the same order, are equal |
| Sorting.SortByIsTheStableSort | src/shared/domain/in-memory-base-model-repository.ts:81-85 | any ordered rearrangement that keeps ties in stored order is exactly the insertion sort's result |
| Sorting.PrecedesAsymmetric | src/shared/domain/in-memory-base-model-repository.ts:82-83 | the comparator never puts both of two records before the other |
| Sorting.PrecedesTotal | src/shared/domain/in-memory-base-model-repository.ts:82-83 | of two records with different keys, one comes first |
| Strings.Lower | src/shared/domain/in-memory-base-model-repository.spec.ts:22 | lower-casing keeps the length and maps each upper-case ASCII letter to its lower-case letter, leaving every other character as it is |
| Strings.LowerIdempotent | src/shared/domain/in-memory-base-model-repository.spec.ts:22 | a lower-cased string has no upper-case letter, and lower-casing it again changes nothing |
| Strings.ContainsIff | src/shared/domain/in-memory-base-model-repository.spec.ts:22 | `includes` holds exactly when the needle occurs at some position of the haystack |
| Strings.SliceContained | src/app.ts:28 | every slice of a string is contained in it |
| Strings.LessIrreflexive | src/shared/domain/in-memory-base-model-repository.ts:82 | no string is less than itself |
| Strings.LessTransitive | src/shared/domain/in-memory-base-model-repository.ts:82-83 | the string order is transitive |
| Strings.LessTotal | src/shared/domain/in-memory-base-model-repository.ts:82-83 | of two different strings one is less than the other |
| Seqs.KeepSelects | src/shared/domain/in-memory-base-model-repository.spec.ts:22 | `filter` answers a subsequence in stored order; every element satisfies the selector; every selected element appears as often as it was stored |
| StubRepository.ApplyFilter | src/shared/domain/in-memory-base-model-repository.spec.ts:17-23 | a missing or empty filter keeps all records; otherwise the result is the stored-order subsequence of exactly the records whose name contains the filter, ignoring case, each as often as stored |
| StubRepository.NameMatchesIff | src/shared/domain/in-memory-base-model-repository.spec.ts:22 | a record matches exactly when the lower-cased filter occurs in its lower-cased name |
| StubRepository.FilterIgnoresCase | src/shared/domain/in-memory-base-model-repository.spec.ts:22 | two filters that agree after lower-casing select the same records |
| StubRepository.StubFind | src/shared/domain/in-memory-base-model-repository.spec.ts:14-24 | the stub's `total` never exceeds the stored count and equals it without a filter |
| StubRepository.FilterScenario | src/shared/domain/in-memory-base-model-repository.spec.ts:275-317 | when the first two of three records match the filter, `find` answers those two and a total of 2 |
| StubRepository.FilterScenarioLast | src/shared/domain/in-memory-base-model-repository.spec.ts:319-331 | when only the third of three records matches, `find` answers it alone and a total of 1 |
| StubRepository.FilterFixture | src/shared/domain/in-memory-base-model-repository.spec.ts:305-317 | over the test fixture, the filter 'john' answers "John Doe" and "john doe", total 2 |
| StubRepository.FilterDavidFixture | src/shared/domain/in-memory-base-model-repository.spec.ts:319-331 | over the test fixture, the filter 'david' answers "David Doe", total 1 |
| StubRepository.SortScenarioAscending | src/shared/domain/in-memory-base-model-repository.spec.ts:356-366 | two records stored in descending name order come back reversed under 'ASC' |
| StubRepository.SortScenarioDescending | src/shared/domain/in-memory-base-model-repository.spec.ts:370-380 | two records stored in descending name order come back unchanged under 'DESC' |
| StubRepository.SortFixture | src/shared/domain/in-memory-base-model-repository.spec.ts:334-383 | over the test fixture, name 'ASC' puts "David Doe" first and 'DESC' keeps "John Doe" first |
| StubRepository.CombinedScenarioPage1 | src/shared/domain/in-memory-base-model-repository.spec.ts:450-462 | with three of four records matching and already in ascending order, page 1 of 2 answers the first two matches, total 3 |
| StubRepository.CombinedScenarioPage2 | src/shared/domain/in-memory-base-model-repository.spec.ts:464-476 | the same query on page 2 answers the third match alone, total 3 |
| StubRepository.SecondOfFourScenario | src/shared/domain/in-memory-base-model-repository.spec.ts:478-490 | when only the second of four records matches, a descending query answers it alone, total 1 |
| StubRepository.CombinedFixturePage1 | src/shared/domain/in-memory-base-model-repository.spec.ts:412-462 | over the combined test fixture, 'john' by name ascending, two a page: page 1 is ids 1 and 3, total 3 |
| StubRepository.CombinedFixturePage2 | src/shared/domain/in-memory-base-model-repository.spec.ts:464-476 | the same on page 2: id 4 alone, total 3 |
| StubRepository.CombinedFixtureDavid | src/shared/domain/in-memory-base-model-repository.spec.ts:478-490 | over the combined fixture, 'david' by name descending: "David Doe" alone, total 1 |
| StubRepository.SecondPageOfTen | src/shared/domain/in-memory-base-model-repository.spec.ts:229-244 | ten items, five a page: page 2 is items 5 to 9 |
| StubRepository.PaginationScenario | src/shared/domain/in-memory-base-model-repository.spec.ts:385-410 | twenty records, ten a page: page 1 is the first ten with total 20 |
| StubRepository.PaginationPastEnd | src/shared/domain/in-memory-base-model-repository.ts:88-93 | twenty records, ten a page: page 3 is empty rather than an error, and the total is still 20 |
| UsersRepository.FindByEmail | src/modules/user/domain/in-memory-users-repository.ts:11-19 | answers null exactly when no user has that email (case-sensitive); otherwise answers the first user in stored order with that email |
| UsersRepository.FindByPhone | src/modules/user/domain/in-memory-users-repository.ts:21-29 | answers null exactly when no user has that phone, so a user without a phone never matches; otherwise answers the first user with it |
| UsersRepository.CreateThenFindByEmail | src/modules/user/domain/in-memory-users-repository.spec.ts:14-24 | a created user is found by its email, and is the answer itself when the email was new |
| UsersRepository.CreateThenFindByPhone | src/modules/user/domain/in-memory-users-repository.spec.ts:27-37 | a created user is found by its phone, and is the answer itself when the phone was new |
| UsersRepository.CreateKeepsOtherEmails | src/modules/user/domain/in-memory-users-repository.ts:11-19 | creating a user leaves every lookup of a different email unchanged |
| UsersRepository.CreateKeepsOtherPhones | src/modules/user/domain/in-memory-users-repository.ts:21-29 | creating a user leaves every lookup of a different phone unchanged |
| RegisterNewUser.Execute | src/modules/auth/application/use-cases/register-new-user-use-case.ts:20-40 | fails with UserAlreadyExists exactly when the email or the phone is already stored; otherwise appends one user holding the input's name, email and phone and the hashed password, and returns the new id |
| BaseRepository.DistinctAppend | src/modules/auth/application/use-cases/register-new-user-use-case.ts:26-28 | appending a record whose value is not yet stored keeps that field pairwise distinct |
| RegisterNewUser.ExecuteKeepsDistinct | src/modules/auth/application/use-cases/register-new-user-use-case.ts:21-37 | registration keeps emails and phones pairwise distinct, and ids too when the fresh id is unused |
| RegisterNewUser.ExecuteFailsWithoutChange | src/modules/auth/application/use-cases/register-new-user-use-case.spec.ts:28-62 | a taken email or phone gives UserAlreadyExists, and no user is created |
| RegisterNewUser.SecondRegistrationFails | src/modules/auth/application/use-cases/register-new-user-use-case.spec.ts:28-62 | after one registration, a second with the same email or the same phone fails |
| RegisterNewUser.RegisteredUserFound | src/modules/auth/application/use-cases/register-new-user-use-case.ts:32-39 | the registered user is what both the email and the phone lookups then answer |
| RegisterNewUser.FakeHashedPasswordMatches | src/modules/auth/application/use-cases/register-new-user-use-case.spec.ts:64-76 | with the test hasher the stored password is the plain password plus "-hashed", and it compares equal to the plain password |
| RegisterNewUser.RegisterIntoEmpty | src/modules/auth/application/use-cases/register-new-user-use-case.spec.ts:17-26 | an empty repository accepts any registration and returns the fresh id |
| FakeHasher.Hash | src/tests/cryptography/fake-hasher.ts:4-6 | the digest is the password followed by the seven characters "-hashed" |
| FakeHasher.Compare | src/tests/cryptography/fake-hasher.ts:7-9 | `compare` holds exactly when the digest is the password followed by "-hashed" |
| FakeHasher.CompareHash | src/tests/cryptography/fake-hasher.ts:4-9 | round trip: every password matches its own digest |
| FakeHasher.CompareIff | src/tests/cryptography/fake-hasher.ts:4-9 | `compare` accepts exactly the digest `hash` produces |
| FakeHasher.HashInjective | src/tests/cryptography/fake-hasher.ts:4-6 | different passwords have different digests |
| FakeHasher.CompareRejectsOthers | src/tests/cryptography/fake-hasher.ts:7-9 | a different password never matches a digest |
| FakeHasher.DigestIsNotPlain | src/tests/cryptography/fake-hasher.ts:4-9 | the digest never equals the password, and a password does not match itself |
| OriginGuard.Forbidden | src/app.ts:26-31 | a 403 follows from each of three faults on its own: neither header sent; an origin not contained in the allowed URL; a referer that does not start with it |
| OriginGuard.AllowedIff | src/app.ts:22-33 | a request passes exactly when it sends a header (`Sent`: present and non-empty, JavaScript truthiness), any origin it sends occurs in the allowed URL, and any referer it sends starts with it (`Strings.IsPrefix`, `startsWith`) |
| OriginGuard.BothSent | src/app.ts:26-30 | with both headers sent, a request passes exactly when both checks pass |
| OriginGuard.ExactOriginAllowed | src/app.ts:28 | an origin equal to the allowed URL, with no referer, passes |
| OriginGuard.RefererUnderAllowed | src/app.ts:29 | any referer that begins with the allowed URL passes, including a different host whose name merely extends it |
| OriginGuard.SubstringOriginAllowed | src/app.ts:28 | any non-empty piece of the allowed URL passes as an origin |
| OriginGuard.LongOriginForbidden | src/app.ts:28 | an origin longer than the allowed URL is always refused |

## Left out

- `randomUUID` is not modelled. The generated id is the parameter `freshId`, and uniqueness of generated ids is a precondition where a lemma needs it.
- The password hasher is a parameter. The bcrypt hasher is not part of this model; only the test hasher is.
- Asynchrony is not modelled. Every `async` method is a pure function, and `Promise.all` in the registration use case is two sequential lookups.
- In-place mutation and aliasing of `items` are not modelled. A `create` or `update` returns a record that JavaScript shares with the array; here it is a value. Each operation hands back a new store instead of mutating one.
- Error values carry no message text. `NotFoundError` is `NotFound(id)` and `UserAlreadyExistsError` is `UserAlreadyExists`.
- Record fields are strings only. Dates and other field types are left out, and so is sorting on them.
- BaseRepository.Create does not model a `data` field explicitly set to `undefined` or `null`. In JavaScript, `...data` copies such a field over the generated id. `create({id: undefined})` therefore stores a record with no id, which `findById`, `update` and `delete` can never reach. The model's records hold strings only, so every created record carries an id.
- BaseRepository.Update does not model a patch field explicitly set to `undefined` or `null`. In JavaScript, `{...old, ...patch}` writes such a field, so `update(id, {phone: undefined})` erases the phone. A model patch can only set fields to strings.
- BaseRepository.Field reads a missing sort field as the empty string. JavaScript compares `undefined`, which is neither less nor greater than anything, so the comparator answers 0 for it.
- StubRepository.ApplyFilter reads a missing `name` as the empty string. The stub's JavaScript would throw on `undefined.toLowerCase()`.
- Strings.Lower lower-cases ASCII letters only. JavaScript's `toLowerCase` also maps other Unicode letters, and this matters for non-ASCII names.
- Strings.Less compares Unicode scalar values. JavaScript compares UTF-16 code units, and the two orders differ only for characters outside the Basic Multilingual Plane.
- `page` and `perPage` are integers. JavaScript numbers may be fractional or `NaN`, and `slice` truncates them.
- Repeated headers need no separate model. Both headers reach the guard typed `string | undefined`. Node keeps only the first `Referer` and joins repeated `Origin` values with ", ". So the guard always sees one string, and OriginGuard.Forbidden is stated for every string.
- The 403 reply itself (status code and body) is not modelled, and neither is the fact that the hook carries on after replying. The model answers only whether the guard refuses.
- `ALLOWED_ORIGIN_URL` being a valid URL (the `zod` schema) is not assumed. The lemmas hold for any string, and some require it to be non-empty.
- BaseRepository.ApplyPaginate states its size bound and its clamped window only for `perPage >= 0`. With a negative `perPage` the body still computes JavaScript's `slice`, including its negative end index, but the contract promises only that the page is a contiguous window.
- StubRepository.StubFind states only the bounds on `total`. What the stub's `find` answers is stated by BaseRepository.Find, BaseRepository.FindPipeline and the scenario lemmas.
- The Prisma repository, the server, rate limiting, JWT, cookies, CORS and the module generator script are outside this model.
- `InMemoryUsersRepository` does not override the filter stage. Its `find` is BaseRepository.Find with whichever filter stage a subclass supplies.
- Spy-call counts in the tests are not modelled.
- Faker-generated test data is not modelled. The lemmas that use it are stated for all inputs.

# Birth register registry, modelled in Dafny

The registry keeps birth registers in one ordered key-value store,
`BirthRegisterStorage`, which maps a record id to a `BirthRegister`. Eight
handlers sit on top of it. Each one validates its input and then does a single
store operation:

- `createBirthRegister` checks the nine payload fields, builds a record with a
  fresh id, the current time and the caller as owner, and inserts it;
- `getBirthRegisterById`, `getBirthRegisterByName` and `getAllBirthRegister`
  read one record or all of them;
- `getAllBirthRegisterByName` and `getBirthRegisterByPlaceOfBirth` filter
  `values()` case-insensitively, and return an error rather than an empty list;
- `updateBirthRegister` overwrites the payload fields of a stored record and
  stamps `updatedAt`;
- `deleteBirthRegister` removes a record and returns it.

Layout of the model:

- `wrappers.dfy` (`Wrappers`): `Option` and `Result`.
- `records.dfy` (`Records`): the record and payload types, `nat64`
  timestamps, the payload check `IsComplete`, and the handlers' errors with
  their exact message texts (`Message`). It also holds the case folding
  `Lower`, which folds ASCII letters only.
- `key_order.dfy` (`KeyOrder`): the order in which the store lists its
  entries. Keys are compared lexicographically. `SortedKeys` gives the keys
  in that order, and it is proved that this order is determined by the set
  of keys and changes in a predictable way when one key is removed.
- `lists.dfy` (`Lists`): the array operations `find` and `filter` used on
  `values()`.
- `queries.dfy` (`Queries`): the table as a `map<string, BirthRegister>`,
  `values()` as `Values`, and the five read-only handlers as functions of the
  table.
- `store.dfy` (`Store`): the class `BirthRegisterStore`. It holds the table
  as a mutable field, and its methods model the three writing handlers. The
  file ends with a worked session on a fresh store.

The host's `uuidv4()`, `ic.time()` and `ic.caller()` become method
parameters (`freshId`, `now`, `caller`). The fresh id is assumed non-empty
and not yet a key, as a version-4 UUID is. The class invariant `Valid()`
says three things about every entry: it is stored under its own id, that id
is non-empty, and all nine payload fields are non-empty. Create and update
keep this invariant because they validate before they write and they insert
under the record's `id`.

Unlike `getBirthRegisterByName`, the two list queries do not validate their
argument (src/index.ts:145-176), and the model follows the code. An empty
argument is still rejected on a well-formed table, but with the no-match
error ("Name does not exist", "place does not exist") rather than an
invalid-parameter error; `EmptyArgumentMatchesNothing` proves this.

## Model

| member | source | states |
|---|---|---|
| `KeyOrder.SortedKeys` | src/index.ts:47 | the store's visiting order: every key exactly once, strictly ascending |
| `KeyOrder.IncreasingUnique` | src/index.ts:47 | that order is fixed: two ascending listings of the same keys are equal |
| `KeyOrder.SortedKeysRemove` | src/index.ts:234 | removing a key drops exactly that key from the order; the other keys keep their relative order |
| `Lists.Find` | src/index.ts:122 | `find` returns the first element passing the test; it returns nothing exactly when no element passes |
| `Lists.Filter` | src/index.ts:150 | `filter` keeps exactly the elements passing the test |
| `Lists.FilterAppend` | src/index.ts:167 | `filter` distributes over concatenation, so it keeps the order of what it retains |
| `Lists.FindIsFirstOfFilter` | src/index.ts:122 | `find` with a test returns the head of `filter` with the same test |
| `Queries.Values` | src/index.ts:121 | `values()` holds exactly the stored records, one per key |
| `Queries.ValuesByAscendingId` | src/index.ts:136 | in a well-formed table `values()` lists the records by ascending id |
| `Queries.GetBirthRegisterById` | src/index.ts:94-106 | an empty id is an invalid-id error; a stored id yields its record; an absent id yields the not-found error naming it |
| `Queries.GetBirthRegisterByName` | src/index.ts:114-129 | an empty name is an invalid-name error; otherwise the result is the first record in `values()` order whose name matches up to case, or the not-found error when no record matches |
| `Records.IsComplete` | src/index.ts:52-63 | a payload passes validation exactly when none of its nine fields is the empty string |
| `Records.Message` | src/index.ts:63-237 | the exact text of each failure; the not-found texts carry the id or name at a fixed position |
| `Records.MessageInjective` | src/index.ts:97-237 | distinct failures have distinct texts, so the text identifies the failure and its id or name |
| `Records.Lower` | src/index.ts:122 | case folding keeps the length, turns each upper-case letter into its own lower-case form, and changes no other character |
| `Records.LowerIdempotent` | src/index.ts:150 | folding twice is folding once, so a folded string matches its original up to case |
| `Queries.GetAllBirthRegister` | src/index.ts:132-141 | always succeeds with `values()` itself: exactly the stored records, one per entry, in ascending key order |
| `Queries.GetAllBirthRegisterByName` | src/index.ts:145-159 | succeeds exactly when some stored name matches up to case; the list is the matching records in `values()` order; the error replaces an empty list |
| `Queries.GetBirthRegisterByPlaceOfBirth` | src/index.ts:162-176 | the same contract as the name list query, for the place of birth, with the place error |
| `Queries.ByNameIsFirstOfAllByName` | src/index.ts:116-154 | for a non-empty name, the single lookup succeeds exactly when the list query does, and returns the list's first record |
| `Queries.EmptyArgumentMatchesNothing` | src/index.ts:145-176 | on a well-formed table, both list queries reject the empty string with their no-match errors, although they do not validate it |
| `Queries.LookupFindsOwnId` | src/index.ts:103-104 | in a well-formed table, every stored record is found by its own id |
| `Queries.InsertWellFormed` | src/index.ts:85 | inserting a complete record under its own non-empty id keeps the table invariant |
| `Queries.RemoveWellFormed` | src/index.ts:234 | removing an entry keeps the table invariant |
| `Queries.ValuesInsert` | src/index.ts:85 | inserting under a new key adds the record at one position of `values()`; all other records keep their order |
| `Queries.ValuesRemove` | src/index.ts:234 | removing a key takes exactly its record out of `values()` and keeps the others in order |
| `Queries.ValuesReplace` | src/index.ts:212 | re-inserting under an existing key replaces that record in place in `values()` |
| `Store.BirthRegisterStore.constructor` | src/index.ts:47 | the store starts empty and satisfies its invariant |
| `Store.BirthRegisterStore.CreateBirthRegister` | src/index.ts:50-86 | fails with the missing-fields error, leaving the table untouched, exactly when a payload field is empty. Otherwise it stores a record under the fresh id, with the payload's nine fields, the caller as owner, `createdAt = now` and no `updatedAt`. No other key changes, the table grows by one, the record is found by its id, and it takes one slot in `values()` |
| `Store.BirthRegisterStore.UpdateBirthRegister` | src/index.ts:179-215 | checks the id, then the payload, then presence. On any error the table is untouched. Otherwise only that key's entry changes: it keeps `id`, `owner` and `createdAt`, takes the nine payload fields, and gets `updatedAt = Some(now)`, in the same place in `values()` |
| `Store.BirthRegisterStore.DeleteBirthRegister` | src/index.ts:224-238 | an empty id is the invalid-id error and an absent id the not-found error, both with the table untouched. Otherwise it returns the stored record and removes exactly that key, after which a lookup by id reports not found |
| `Store.AdaSession` | src/index.ts:50-237 | on a fresh store: creating Ada's record succeeds; looking up "ada" by name returns it; deleting its id returns it; a later lookup by id reports not found |

## Left out

- The `catch` branches of every handler. They fire only when the store library throws, and its code is not part of this model. This includes a key or a record larger than the limits given to the store's constructor (44 and 1024 bytes at src/index.ts:47): what the library does with such an entry (throw, trap or refuse the insert) is not modelled, and the model always stores it.
- `KeyOrder.Less` compares keys as character sequences. The store library orders its serialized keys. For the equal-length ASCII ids that `uuidv4()` produces, the two orders agree.
- `Lower` folds only ASCII letters. The source's `toLowerCase` (src/index.ts:122) and `toLocaleLowerCase` (src/index.ts:150, 167) apply full Unicode case mapping, and the second also depends on the host's locale. The model uses the one `Lower` for both, so it treats the two as the same function; `ByNameIsFirstOfAllByName` relies on that and would not hold under a locale whose folding differs from the default one.
- `uuidv4()`, `ic.time()` and `ic.caller()` are host calls and become parameters. A UUID collision is not modelled: `CreateBirthRegister` requires the fresh id not to be a key.
- Store.BirthRegisterStore.UpdateBirthRegister: does not promise `updatedAt >= createdAt`. That holds only if the host clock never goes back, and the clock is a parameter here.
- The `typeof ... !== "string"` checks, since the parameters are typed strings. The `$update`/`$query` markers and persistence across calls are also left out.
- The spread `...payload` in the update handler could copy fields that the payload type does not declare. The model copies exactly the nine declared fields, which is what a decoded payload carries.
- The `globalThis.crypto` random-number shim (src/index.ts:246-257) feeds only the id generator, which is a parameter here.

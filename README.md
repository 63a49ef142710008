# Item catalogue and `LetterChanges`, modelled in Dafny

This project models two independent pieces of one small Python repository.

- **The item service** (`main.py`) is modelled in `item_store.dfy`, module
  `ItemStore`. It has four handlers, create, read, update and delete, over one
  `items` table keyed by an integer id. Here the table is a `map<int, Row>`
  field of the class `Store`, and each handler is a method of that class. Each
  method is tied to a pure function of the old table (`Inserted`,
  `ReadOutcome`, `UpdateOutcome`, `DeleteOutcome`). The lifecycle properties
  are proved as lemmas about those functions.
- **`LetterChanges`** (`challenge.py`) is modelled in `letter_changes.dfy`,
  module `LetterChanges`. The first pass is a method loop that builds the
  shifted characters. The second pass, `capitalize_if_needed` over every
  character, is a function. Both passes are proved equal to an independent
  code-point definition, `Expected`.
- `wrappers.dfy` holds `Option`, which stands for Python's `Optional`, and
  `Result`, which stands for a handler that returns or raises.

What the item model fixes, following the code:

- A row (`DBItem`) has a NOT NULL `name`, because its annotation is
  `Mapped[str]`. Its `price` and `description` may be NULL.
- The returned `Item` has a *required* float price (main.py:12), though the
  row's price column is nullable (main.py:40).
- Update replaces every field with the payload's value, `None` included.
  This is the `setattr` loop over `model_dump()`, so the model uses full
  replace, not a partial update.
- An update whose name is `None` is refused by the NOT NULL column. The commit
  raises, so the table is unchanged (`IntegrityError`).
- An update whose price is `None` is committed. The response `Item` then
  fails validation (`ValidationError`). So do later reads of that id, and a
  delete of it, which still removes the row.
- A new id follows SQLite's rowid rule: one more than the largest id in the
  table, or 1 when the table is empty (`NextRowId`). No `AUTOINCREMENT` is
  declared, so ids are not monotonic: once the newest row is deleted its id
  is handed out again (`IdReuseScenario`).
- The price is an opaque value: the IEEE-754 bit pattern of the float. No
  arithmetic is done on it.

Read has no `modifies` clause, so it cannot change the store. Two reads of the
same id with no write in between therefore give the same result.

## Model

| member | source | states |
|---|---|---|
| `ItemStore.ToItem` | main.py:9-13 | the response record exists exactly when the row has a price; it then carries the row's id, name, price and description; otherwise it is a validation error |
| `ItemStore.NewRow` | main.py:66 | the row built from a create payload has the given id, and reading it back gives the payload's name, price and description under that id |
| `ItemStore.Inserted` | main.py:66-68 | adding the new row grows the key set by exactly the new id, stores there a row that reads back as the payload under that id, and leaves every other row as it was |
| `ItemStore.ReadOutcome` | main.py:73-78 | a read is `NotFound` exactly when the id is not in the table |
| `ItemStore.Overwritten` | main.py:86-87 | the `setattr` loop keeps the row's id and sets name, price and description to the payload's values, `None` price included; the row reads back as the payload's fields when the price is present, and as a validation error when it is `None` |
| `ItemStore.UpdateOutcome` | main.py:81-90 | update keeps the key set and every other row; it is `NotFound` exactly when the id is absent and `IntegrityError` exactly when the id is present and the name is `None`; those errors leave the table unchanged |
| `ItemStore.DeleteOutcome` | main.py:93-100 | delete removes exactly the id from the key set and keeps every other row; it is `NotFound` exactly when the id is absent; otherwise it returns the removed row as a read would have |
| `ItemStore.NextRowId` | main.py:38 | for the positive ids a table holds, the new id is larger than every id in use and is 1 or one more than an id in use; it is 1 exactly when the table is empty |
| `ItemStore.Store.constructor` | main.py:28-61 | the store opens on the items table the database file holds, whatever well-keyed rows it has; `create_all` only adds the table when missing, and a new database is the empty map |
| `ItemStore.Store.Create` | main.py:64-70 | the id was not in the table before; the table gains exactly that row; the result has the input's name, price and description under the new id; the id follows the rowid rule |
| `ItemStore.Store.Read` | main.py:73-78 | `NotFound` exactly when the id is absent; when the read succeeds, the stored row's name, price and description; the store is not written |
| `ItemStore.Store.Update` | main.py:81-90 | the new table and the result are those of `UpdateOutcome` on the old table; the table stays well keyed |
| `ItemStore.Store.Delete` | main.py:93-100 | the new table and the result are those of `DeleteOutcome` on the old table; the table stays well keyed |
| `ItemStore.OperationsKeepWellKeyed` | main.py:35-41 | insert under a fresh positive id, update and delete all keep every row under its own positive id |
| `ItemStore.CreateThenRead` | test/test_api.py:53-69 | reading the id a create used gives back the input's fields under that id; every other id reads as before |
| `ItemStore.AbsentIsNotFound` | main.py:74-97 | read, update and delete of an absent id each give `NotFound` and leave the table as it was |
| `ItemStore.UpdatePresent` | main.py:86-90 | update of a stored id sets exactly the payload's name, price and description (`None` price included), keeps the id and the key set, leaves every other row alone, and returns what a read then gives |
| `ItemStore.UpdateResponse` | main.py:86-90 | with a price the update returns the payload's fields under the same id; with a `None` price it gives a validation error, and so does every later read |
| `ItemStore.UpdateNullName` | main.py:86-88 | an update with a `None` name is refused and leaves the table unchanged |
| `ItemStore.DeletePresent` | main.py:98-100 | delete of a stored id removes only that key and returns the row as it was; a later read, update or delete of that id is `NotFound` |
| `ItemStore.ApiScenario` | test/test_api.py:53-96 | on an empty table, create gives id 1 with the test's fields; read returns that record; updating with the same fields returns it unchanged; delete returns it; a read after the delete is `NotFound` |
| `ItemStore.IdReuseScenario` | main.py:38 | create, delete, create: both creates get id 1, so a deleted id can be handed out again |
| `LetterChanges.IndexOf` | challenge.py:13-16 | `str.index`: the first position holding the character, or `None` (Python's `ValueError`) exactly when the character does not occur |
| `LetterChanges.AsciiLowercaseSpelledOut` | challenge.py:1 | the alphabet the model indexes is the string `abcdefghijklmnopqrstuvwxyz` |
| `LetterChanges.Shift` | challenge.py:9-20 | one step of the first pass: a character is a letter of `ascii_lowercase` before exactly when it is one after, and every other character is kept |
| `LetterChanges.ShiftAll` | challenge.py:9-20 | the first pass keeps the length, keeps letters of `ascii_lowercase` letters at every position and leaves every other character as it was |
| `LetterChanges.CapitalizeIfNeeded` | challenge.py:22-25 | the result is never a lowercase vowel; a lowercase vowel becomes the uppercase letter 32 code points lower; anything else is kept |
| `LetterChanges.CapitalizeAll` | challenge.py:27-30 | the comprehension keeps the length, leaves no lowercase vowel and keeps every character that is not one |
| `LetterChanges.Changed` | challenge.py:6-31 | the output has the input's length and each position is the code-point reference `Expected` of the input character there |
| `LetterChanges.IndexOfAsciiLowercase` | challenge.py:13-16 | looking a character up in `ascii_lowercase` finds exactly `a`-`z`, each at its distance from `a` |
| `LetterChanges.ShiftIsNextLetter` | challenge.py:9-20 | the first pass moves `a`-`y` one code point up, wraps `z` to `a` and keeps every other character |
| `LetterChanges.ChangedChar` | challenge.py:9-30 | both passes on one character agree with the code-point reference `Expected` |
| `LetterChanges.LetterChanges` | challenge.py:6-31 | the `for` loop builds exactly the first pass, so the method returns `Changed`: the input's length, and `Expected` of the input character at each position |
| `LetterChanges.ChangedCharEverywhere` | challenge.py:9-30 | both passes agree with `Expected` on every character at once |
| `LetterChanges.ChangedConcat` | challenge.py:9-30 | the transform of `s + t` is the transform of `s` followed by that of `t` |
| `LetterChanges.ZBecomesUppercaseA` | challenge.py:10-24 | `z` becomes `A` |
| `LetterChanges.LetterBecomesNext` | challenge.py:13-25 | a letter `a`-`y` becomes the next letter of `ascii_lowercase`, uppercased exactly when that letter is in `VOWELS` |
| `LetterChanges.OthersUnchanged` | challenge.py:15-25 | a character outside `a`-`z` is returned unchanged, uppercase vowels included |
| `LetterChanges.NoLowercaseVowel` | challenge.py:22-30 | no output character is a lowercase vowel |
| `LetterChanges.AlphabetAt` | challenge.py:33 | letter `k` of the alphabet maps to letter `k` of `bcdEfghIjklmnOpqrstUvwxyzA` |
| `LetterChanges.Alphabet` | challenge.py:33 | the alphabet maps to `bcdEfghIjklmnOpqrstUvwxyzA` |

## Left out

- HTTP routing, decorators, `HTTPException` and status codes: the 404 is the `NotFound` error and nothing more.
- Request-body validation: a body without one of the `ItemCreate`/`ItemUpdate` keys is refused with 422 before a handler runs. The model starts from a parsed payload.
- Sessions, `commit`/`refresh`, `get_db` and the startup `create_all`: the table is a map field, and each handler is one atomic step on it. Concurrent requests are not modelled.
- The `String(30)` length on `name`: SQLite does not enforce it, so the model stores names of any length.
- Float semantics of `price`: the model stores every IEEE-754 bit pattern as given, so `Store.Create`, `Inserted` and `UpdatePresent` hand back the price unchanged. SQLite does not: it stores a NaN price as NULL, so a create or update with a NaN price commits and then answers with a validation error (main.py:68-70, 88-90); and it returns a `-0.0` price as `0.0`.
- Ids outside the 64-bit range: a read, update or delete with such an `item_id` is refused by path validation (422) or makes sqlite3 raise `OverflowError` when binding the filter value at main.py:75/83/95 (500). The model gives `NotFound` for every absent id, with ids as unbounded integers.
- NextRowId: a database file that already holds zero or negative ids is not modelled; the store's rows are all under positive ids, and SQLite would then hand out one more than the largest id even when that is not positive.
- NextRowId: 64-bit rowids are not modelled. Neither is SQLite's random choice of an unused id once the largest rowid is 2^63-1.
- `Item(**db_item.__dict__)` is replaced by the field-by-field `ToItem`. The extra SQLAlchemy state in `__dict__` is ignored.
- The commented-out user-management code in `main.py` and `models.py`: they are dead code with no behaviour.
- The test fixtures (in-memory database, dependency override, table setup and teardown).
- The `print` at the bottom of `challenge.py`. Its argument is stated by `Alphabet`.
- Strings are sequences of Unicode scalar values, so input holding a lone surrogate (a Python `str` can hold one, for instance from the JSON escape `"\ud800"`) is not modelled. For the store, a create or update whose name or description holds one fails when sqlite3 encodes the parameter as UTF-8 at `db.commit()` (main.py:68, 88), and nothing is written; `LetterChanges` would pass such a character through unchanged.
- `str.upper` beyond ASCII: the helper only applies it to the vowels `aeiou`, so `Upper` is defined for `a`-`z` only.

# Student records: patch merge, list filter and serialisation

A Dafny model of the logic inside a small student-records HTTP service
(FastAPI handlers over a MongoDB collection). A student has a `name`, an
integer `age` and an `Address` with `city` and `country`. The model covers:

- the entity shapes and the pydantic conversions between a student and its
  stored document (`models.dfy`, module `Models`);
- `serialize_student`, which pops `_id` out of a document dict in place and
  validates the rest, and `list_serialize`, which does this for each document
  of a query and collects `{name, age}` entries (`schemas.dfy`, module `Schemas`);
- the PATCH merge: the `updated_data` dict built from a sparse patch, the
  `$set` that applies it, and the resulting `Merge`; the filter built by the
  list endpoint; and the handlers' not-found paths over a collection held as a
  map from ids to students (`router.dfy`, module `Router`);
- `Option`, `Result` and `Outcome` for Python's `None` and raised exceptions
  (`wrappers.dfy`, module `Wrappers`).

Pure logic (the merge, the filter, validation) is written as functions.
`serialize_student` and `list_serialize` mutate dicts, so they are methods
over a `Document` class whose `fields` map they change. Their contracts say
what they return and what each dict holds afterwards. The collection is a
class whose handler methods update its map.

Behaviour the model keeps from the code:

- `name` and `age` are copied into `updated_data` only when truthy. A patch
  name of `""` or a patch age of `0` is ignored.
- An address object in the patch always rewrites the whole address. It is
  always truthy, even when both its fields are `None`.
- Each address field falls back to the stored value when the patched value
  is falsy. The stored address is never left half-written.
- The address fields are tested for truthiness (routers/students.py:70 and
  75), so an empty string falls back to the stored value just as `None` does.
- The country filter is an anchored, case-insensitive match (`^country$`).
  It is not a prefix match.

## Model

| member | source | states |
|---|---|---|
| `Models.Validate` | models/students.py:12-15 | validation succeeds exactly when `name` is a string, `age` an integer and `address` a valid address; the student's fields are those values |
| `Models.ValidateAddress` | models/students.py:6-9 | an address validates only from an object holding string `city` and `country`, and the object holds those two values |
| `Models.ValidateAddressIff` | models/students.py:6-9 | both directions: an address value validates to `a` exactly when it is an object holding `a`'s city and country as strings, whatever other keys it has |
| `Models.ValidateIff` | models/students.py:12-15 | both directions: a document validates to `s` exactly when it holds `s`'s name and age and an address object holding `s`'s city and country, whatever other keys it has |
| `Models.Dump` | routers/students.py:29 | `model_dump`: the document form of a student; `ValidateDump` proves validation inverts it and `ValidateIff` that it is the least document validating to the student |
| `Models.ValidateDump` | models/students.py:12-15 | dumping a student and validating the dump gives back the same student |
| `Models.ValidateOnlyReadsDump` | models/students.py:12-15 | a document that validates to a student contains that student's name, age and both address fields |
| `Models.ValidateIgnoresOtherKeys` | models/students.py:12-15 | keys other than `name`, `age` and `address` (such as `_id`) have no effect on validation |
| `Schemas.Serialize` | schema/schemas.py:12-15 | a KeyError exactly when `_id` is absent; on success the id is the document's `_id` and the student is the validation of the document without `_id` |
| `Schemas.SerializeStudent` | schema/schemas.py:12-15 | the dict loses `_id` (whether or not the call succeeds) and the result is `Serialize` of the dict as it was |
| `Schemas.Stored` | routers/students.py:29-30 | the document `insert_one` stores: the dump plus the generated `_id`; `SerializeStored` proves it serializes back to that id and student |
| `Schemas.SerializeStored` | schema/schemas.py:12-15 | serializing a stored document gives back its `_id` and the student that was stored |
| `Schemas.SerializeIdIndependent` | schema/schemas.py:14-15 | replacing the `_id` changes only the returned id, never the student or the error |
| `Schemas.Summary` | schema/schemas.py:22-23 | one listing entry built from a validated student; its content is stated by `SummaryOnlyNameAndAge` |
| `Schemas.SummaryOnlyNameAndAge` | schema/schemas.py:22-23 | an entry has exactly the keys `name` and `age`, with the student's values; no address and no id |
| `Schemas.FirstFailure` | schema/schemas.py:21-22 | the index it returns has only successful documents before it and, when in range, a failing document at it |
| `Schemas.SerializeAll` | schema/schemas.py:18-25 | the value `list_serialize` returns or the exception it raises; `SerializeAllOk` and `SerializeAllErr` state both cases, and `ListSerialize`'s loop is proved equal to it |
| `Schemas.SerializeAllOk` | schema/schemas.py:18-25 | the listing succeeds iff every document serializes; it then has one entry per document, in input order, the i-th holding the i-th student's name and age |
| `Schemas.SerializeAllErr` | schema/schemas.py:21-22 | a failing listing raises what the first failing document raised |
| `Schemas.ListSerialize` | schema/schemas.py:18-25 | the loop returns `SerializeAll` of the dicts' initial contents; each dict up to the first failure has lost `_id`, and later dicts are untouched |
| `Router.PatchedAddress` | routers/students.py:66-78 | the address written when a patch carries an address object; its field rules are stated by `MergeAddress` and `EmptyAddressPatch` |
| `Router.UpdatedData` | routers/students.py:61-78 | `updated_data` holds `name` iff the patch name is non-empty, `age` iff the patch age is non-zero, `address` iff an address object was sent, and no other key |
| `Router.SetFields` | routers/students.py:80 | `$set` on one document: the update's keys overwrite, the others are kept; `MergeIsSet` states what it yields on a stored student |
| `Router.Merge` | routers/students.py:61-80 | the student a PATCH leaves behind; its properties are stated by `MergeIsSet`, `MergeName`, `MergeAge`, `MergeAddress`, `EmptyPatch`, `EmptyAddressPatch`, `FullPatch` and `MergeIdempotent` |
| `Router.MergeIsSet` | routers/students.py:61-80 | `$set`-ing `updated_data` onto the stored document yields the stored document of `Merge(existing, patch)` under the same `_id`; keys not in `updated_data` keep their values |
| `Router.EmptyPatch` | routers/students.py:61-66 | an all-None patch puts nothing in `updated_data` and leaves the student unchanged |
| `Router.MergeName` | routers/students.py:62-63 | the name is replaced exactly when the patch name is a non-empty string; `""` keeps the stored name |
| `Router.MergeAge` | routers/students.py:64-65 | the age is replaced exactly when the patch age is non-zero (negative included); `0` keeps the stored age |
| `Router.MergeAddress` | routers/students.py:66-78 | with no address object the stored address is kept in full; with one, city and country are each the patch value when non-empty, else the stored value |
| `Router.EmptyAddressPatch` | routers/students.py:66-78 | an address object whose fields are None or empty still writes `address`, but writes the values already stored |
| `Router.FullPatch` | routers/students.py:61-78 | a patch with every field truthy determines the result regardless of the stored student |
| `Router.MergeIdempotent` | routers/students.py:61-80 | applying a patch twice gives the same student as applying it once |
| `Router.BuildFilter` | routers/students.py:38-42 | the filter dict: a country condition only for a truthy country, an age bound only for a truthy age; stated by `ListedIff` |
| `Router.EqualsIgnoreCase` | routers/students.py:40 | the anchored case-insensitive match read as ASCII equality ignoring case; `EqualsIgnoreCaseEquivalence` proves it an equivalence |
| `Router.Matches` | routers/students.py:38-43 | whether the query returns a student for a filter; stated on the raw arguments by `ListedIff` |
| `Router.EqualsIgnoreCaseEquivalence` | routers/students.py:40 | the case-insensitive country match is reflexive, symmetric and transitive |
| `Router.ListedIff` | routers/students.py:38-43 | a student matches iff (country argument None/empty, or equal to its country ignoring case) and (age argument None/0, or its age is at least that) |
| `Router.Selected` | routers/students.py:43 | the selected ids are drawn from the collection's ids |
| `Router.SelectedIff` | routers/students.py:38-43 | an id is selected exactly when it is stored and its student matches the filter |
| `Router.SelectedAppend` | routers/students.py:43 | selection keeps collection order: selecting from `a + b` is the selection from `a` followed by the selection from `b` |
| `Router.Collection.constructor` | routers/students.py:8 | an empty collection |
| `Router.Collection.Create` | routers/students.py:27-31 | the student is stored under the new id, which is appended to the query order |
| `Router.Collection.GetById` | routers/students.py:47-52 | returns the stored student for a stored id, read back through `serialize_student`; not-found iff the id is absent |
| `Router.Collection.Update` | routers/students.py:55-80 | an absent id gives not-found and no write; otherwise the stored student becomes `Merge(stored, patch)` and nothing else changes |
| `Router.Collection.Delete` | routers/students.py:83-88 | an absent id gives not-found and no change; otherwise exactly that id is removed from the map and from the order |
| `Router.Collection.Find` | routers/students.py:43 | one fresh dict per selected id, in order, each holding that student's stored document |
| `Router.Collection.List` | routers/students.py:34-44 | the response has one `{name, age}` entry per selected student, in collection order |

## Left out

- The MongoDB client and its connection are not modelled. The collection is a map from ids to students, plus the order queries return them in.
- Ids are an opaque type. `insert_one` generates them, so `Create` takes the new id as a parameter, on the condition that it is not already in use.
- Parsing an id string with `ObjectId(id)`, and its error on a malformed id, are left out.
- `SerializedStudent.id` is declared `str` but receives the raw `_id` value (an ObjectId), so the model keeps it as a document `Value`.
- Query order is taken to be insertion order. MongoDB does not promise any order for an unsorted `find`.
- An empty `$set` is modelled as a no-op. Some MongoDB server versions reject it instead.
- HTTP routing, status codes and response bodies are not modelled. `NotFound` stands for the 404 `HTTPException`, and `Pass` stands for the 204 or `{}` response.
- `Models.Validate` does not model pydantic's lax coercion (a string `"21"` accepted as an age, for instance). It accepts exactly the declared types.
- Pydantic's collected error details are not modelled. One `ValidationError` stands for them all.
- The country filter interpolates its argument unescaped into a regular expression, so regex metacharacters act as wildcards. The model leaves this out and reads the filter as literal equality with ASCII case folding. Unicode case folding is left out too.
- The lower-casing of names and addresses and the in-memory store variant are not part of this model.
- async/await is left out, and so is the race between `find_one` and `update_one` in a PATCH (two concurrent patches: the last writer wins).
- Integers are unbounded, as in Python. BSON's 64-bit storage limit on `age` is not modelled.
- `Schemas.ListSerialize` requires the dicts it is given to be distinct objects. A database cursor yields a fresh dict per document. A repeated dict would fail on its second `pop` with a KeyError, and the model does not capture that case.

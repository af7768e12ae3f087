# Announcements service — a Dafny model

This project models the announcements router of a high-school management API
(`src/backend/routers/announcements.py`). The router is a CRUD layer over one
document collection. It has five endpoints:

- list the active announcements (no authentication);
- list every announcement (teacher only);
- create an announcement;
- partially update an announcement;
- delete an announcement.

Every endpoint except the first rejects an empty or unknown teacher name first.

The model has two modules:

- `AnnouncementRules` (`announcement_rules.dfy`) holds the values:
  - the request and record shapes (`AnnouncementCreate`, `AnnouncementUpdate`, `Announcement`, `Doc`);
  - the HTTP errors with their status codes and detail strings (`ApiError`);
  - the error chain of each mutating endpoint, as pure functions (`CreateCheck`, `UpdateCheck`, `DeleteCheck`);
  - the active-window predicate (`IsActive`);
  - the partial-update merge (`Merge`) and the `$set` document that update builds (`UpdateDoc`, `ApplySet`);
  - the store's newest-first sort (`SortNewestFirst`).
- `AnnouncementService` (`announcement_service.dfy`) holds the class `AnnouncementRouter`.
  - The collection is a field `store: map<Id, Announcement>`. Create, update and delete change it in place.
  - The teacher directory is a set of user names. The ISO-8601 parser and the ObjectId syntax check are function values. All three are fixed at construction.
  - The object invariant `Valid()` says three things about every stored document: its identifier is well formed, its expiration parses, and its author is a registered teacher.
  - Every mutating method states its result and its new store in terms of the pure error chain. On every error the store is unchanged.
  - Two client methods run whole scenarios against these contracts: create then list, and create, update, list, delete, list, delete.

Modelling choices:

- Times are one ordered type `Time` (an `int`), and `now` is a parameter.
- `datetime.fromisoformat` is an injected `DateParser` (`string -> Option<Time>`). It returns `None` where Python raises `ValueError`.
- `bson.ObjectId` syntax is an injected predicate `validId`.
- Create receives, as a parameter, the fresh identifier that the collection assigns on `insert_one`.

The model follows the code where it is looser than its own messages suggest:

- The check is `expiration < now` (line 97), so an expiration equal to `now` passes despite the message "Expiration date must be in the future" (line 99).
- An empty `start_date` is treated as absent by create. Python's truthiness test skips validation for it, and the empty string is stored as given. List-active treats it as "no start", because `"" <= now` holds.
- Update never re-checks that the start is before the expiration, and it does not validate a supplied start at all. So no start-before-expiration ordering holds of the stored collection. `UpdateMayInvertWindow` shows an update that breaks it.

## Model

| member | source | states |
|---|---|---|
| AnnouncementRules.Authenticate | src/backend/routers/announcements.py:61-68 | succeeds exactly for a non-empty registered name; the empty name gives "Authentication required", any other unregistered name gives "Invalid teacher credentials" |
| AnnouncementRules.CreateCheck | src/backend/routers/announcements.py:84-109 | create's error precedence: empty name, unknown name, unparseable expiration, expiration before now (equality passes), unparseable non-empty start, start at or after expiration; no error exactly when the teacher is registered, the expiration parses and is not before now, and any non-empty start parses and is strictly earlier |
| AnnouncementRules.UpdateCheck | src/backend/routers/announcements.py:136-177 | update's error precedence: the two 401s, malformed id (400), unknown id (404), supplied expiration unparseable or past (400), all fields None (400); no error exactly when all of these pass; start/expiration ordering is not part of it |
| AnnouncementRules.DeleteCheck | src/backend/routers/announcements.py:200-219 | delete's error precedence: the two 401s, malformed id (400), absent id (404); no error exactly when the record exists |
| AnnouncementRules.UpdateDoc | src/backend/routers/announcements.py:157-177 | the update document holds a field exactly when the body supplies it (non-None), and is empty exactly when no field is supplied |
| AnnouncementRules.SetOfUpdateDocIsMerge | src/backend/routers/announcements.py:157-183 | `$set` of the update document equals the field-wise merge, which keeps `created_by` and `created_at` |
| AnnouncementRules.MergeFieldwise | src/backend/routers/announcements.py:158-174 | each supplied (non-None) field takes the body's value and each unsupplied field keeps its stored value; with nothing supplied the record is unchanged |
| AnnouncementRules.MergeIdempotent | src/backend/routers/announcements.py:158-183 | repeating the same partial update changes nothing further |
| AnnouncementRules.MergeSequential | src/backend/routers/announcements.py:158-183 | two successive partial updates equal one update in which the later body overrides the earlier one field by field |
| AnnouncementRules.CreatedWindowOrdered | src/backend/routers/announcements.py:95-118 | a record that create accepts has a parseable expiration not before its creation time, a non-empty start strictly before the expiration, and a registered author |
| AnnouncementRules.UpdateMayInvertWindow | src/backend/routers/announcements.py:163-183 | an update that moves a valid expiration to or before the stored start passes every check and yields a record whose start is not before its expiration |
| AnnouncementRules.ActiveWindow | src/backend/routers/announcements.py:35-49 | list-active's filter excludes expired records and records whose start is after now, and includes open records without a start |
| AnnouncementRules.CreatedIsActiveUnlessPending | src/backend/routers/announcements.py:35-118 | a record that create accepts at `now` is active at `now` exactly when it has no start or its start is not after `now` |
| AnnouncementRules.InsertNewestFirst | src/backend/routers/announcements.py:44 | inserting into a newest-first sequence keeps it newest first and adds exactly that document (multiset) |
| AnnouncementRules.SortNewestFirst | src/backend/routers/announcements.py:44 | `sort("created_at", -1)` returns a permutation (multiset-equal) of its input ordered by `created_at` descending |
| AnnouncementRules.SortKeepsIdsDistinct | src/backend/routers/announcements.py:71 | sorting never duplicates an identifier |
| AnnouncementService.AnnouncementRouter.Find | src/backend/routers/announcements.py:38-44 | `find(query)` with `{}` or `{"expiration_date": {"$gte": now}}` yields every stored document matching the filter, each once, and nothing else |
| AnnouncementService.AnnouncementRouter.FindNewestFirst | src/backend/routers/announcements.py:44 | the cursor `find(query).sort("created_at", -1)` holds exactly the matching documents, each once, newest first |
| AnnouncementService.AnnouncementRouter.ListActive | src/backend/routers/announcements.py:31-51 | returns exactly the stored documents whose expiration is at or after now and whose start is absent, empty, or at or before now, each once, newest `created_at` first |
| AnnouncementService.AnnouncementRouter.ListAll | src/backend/routers/announcements.py:56-75 | fails with the authentication error for an empty or unknown name; otherwise returns every stored document, each once, newest first |
| AnnouncementService.AnnouncementRouter.Create | src/backend/routers/announcements.py:80-124 | returns the first error of the create chain with the store unchanged; otherwise inserts exactly one document under the fresh id, with the input's message, start and expiration, `created_by` the teacher and `created_at` now, keeps every other record, and keeps the store invariant |
| AnnouncementService.AnnouncementRouter.Update | src/backend/routers/announcements.py:128-192 | returns the first error of the update chain with the store unchanged; otherwise replaces only that record by its merge with the body, returns it, keeps every other record, and keeps the store invariant |
| AnnouncementService.AnnouncementRouter.Delete | src/backend/routers/announcements.py:196-221 | returns the first error of the delete chain with the store unchanged; otherwise removes exactly that record, keeps the rest, and returns "Announcement deleted successfully" |
| AnnouncementService.CreatedAnnouncementIsListed | src/backend/routers/announcements.py:31-124 | an announcement created with a future expiration and no start comes back as exactly the created document (its message, start, expiration, author `user` and `created_at` now, under the fresh id) and is the only entry of both listings |
| AnnouncementService.UpdateThenDelete | src/backend/routers/announcements.py:128-221 | updating only the message changes only the message, and the listing shows it; delete then empties the listing, and a second delete of the same id reports 404 |

## Left out

- The web framework is not modelled: routing, decorators, `Query` parameters and the validation of request bodies (lines 5-28). The record shapes appear as datatypes.
- The list-all username is `Optional[str]`. A missing name is modelled as the empty string; both fail the same `not teacher_username` test.
- The database module and the Mongo client calls are replaced by the map field. The teacher collection is replaced by a set of names.
- `bson.ObjectId` is abstracted as the `validId` predicate and string identifiers. The `str(_id)` / `pop("_id")` conversion is left out; a returned `Doc` carries its id directly.
- `datetime.fromisoformat` and the `"Z"` → `"+00:00"` rewrite are abstracted as the `DateParser`. Time zones are not modelled. A string with a zone offset yields an offset-aware datetime. Comparing it with the naive `datetime.now()` raises `TypeError`, which the `except ValueError` does not catch. The model does not capture that failure.
- `datetime.now()` is a parameter. Create's two readings of the clock (lines 97 and 117) are one instant. `created_at` is stored as that `Time`, not as its ISO string.
- AnnouncementService.AnnouncementRouter.ListActive: list-active compares raw ISO strings lexicographically with `now.isoformat()`, while create and update compare parsed datetimes. The model compares parsed times throughout. That agrees with the source only when stored dates share the naive `isoformat` layout. A non-empty start that does not parse can be stored only through update. The model treats such a start as not yet started; the source's string comparison may decide otherwise.
- The 500 "Failed to update announcement" branch (lines 185-186) is not modelled. It fires only when the record disappears between `find_one` and `update_one`. A sequential model cannot reach it once line 153 has found the record.
- Concurrency between requests (last writer wins) is not modelled. Each method is one atomic request.
- Order among documents with equal `created_at` is left open, as the store leaves it. Only the newest-first order is stated.

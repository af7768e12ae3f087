/** The value-level part of the announcements router: the record shapes, the
    error taxonomy, the validation chains of the mutating endpoints, the
    active-window predicate, the partial-update merge and the newest-first
    ordering of listings.

    Timestamps are modelled as one ordered type `Time`; turning an ISO-8601
    string into a `Time` is an injected parser that may fail. */
module AnnouncementRules {

  type Time = int

  /** Store identifiers in their string form (the hex string of an ObjectId). */
  type Id = string

  /** `datetime.fromisoformat`, after the "Z" rewrite; None where it raises ValueError. */
  type DateParser = string -> Option<Time>

  datatype Option<T> = None | Some(value: T) {
    function GetOr(default: T): T {
      match this
      case Some(v) => v
      case None => default
    }

    /** This value when present, otherwise `other`: the first error raised wins. */
    function Or(other: Option<T>): Option<T> {
      if Some? then this else other
    }
  }

  /** An endpoint either returns a value or raises an HTTPException. */
  datatype Result<T> = Ok(value: T) | Err(error: ApiError)

  /** The HTTPExceptions the router raises, with their status codes and details. */
  datatype ApiError =
    | AuthenticationRequired
    | InvalidCredentials
    | InvalidDateFormat
    | ExpirationInPast
    | StartNotBeforeExpiration
    | InvalidAnnouncementId
    | AnnouncementNotFound
    | NoFieldsToUpdate
  {
    function Status(): int {
      match this
      case AuthenticationRequired => 401
      case InvalidCredentials => 401
      case AnnouncementNotFound => 404
      case _ => 400
    }

    function Detail(): string {
      match this
      case AuthenticationRequired => "Authentication required for this action"
      case InvalidCredentials => "Invalid teacher credentials"
      case InvalidDateFormat => "Invalid date format. Use ISO format (YYYY-MM-DDTHH:MM:SS)"
      case ExpirationInPast => "Expiration date must be in the future"
      case StartNotBeforeExpiration => "Start date must be before expiration date"
      case InvalidAnnouncementId => "Invalid announcement ID"
      case AnnouncementNotFound => "Announcement not found"
      case NoFieldsToUpdate => "No fields to update"
    }
  }

  const DeletedMessage: string := "Announcement deleted successfully"

  /** A stored announcement document (without its `_id`). */
  datatype Announcement = Announcement(
    message: string,
    startDate: Option<string>,
    expirationDate: string,
    createdBy: string,
    createdAt: Time)

  /** A document as the endpoints return it: the fields plus its `id`. */
  datatype Doc = Doc(id: Id, body: Announcement)

  /** Request body of create: `AnnouncementCreate`. */
  datatype AnnouncementCreate = AnnouncementCreate(
    message: string,
    startDate: Option<string>,
    expirationDate: string)

  /** Request body of update: `AnnouncementUpdate`, every field optional. */
  datatype AnnouncementUpdate = AnnouncementUpdate(
    message: Option<string>,
    startDate: Option<string>,
    expirationDate: Option<string>)

  /** The fields an update document may `$set`. */
  datatype Field = Message | StartDate | ExpirationDate

  // ---------------------------------------------------------------------------
  // Authentication and validation

  /** `not teacher_username` fails for the empty name; otherwise the name must
      be in the teacher directory. */
  predicate IsTeacher(teachers: set<string>, user: string) {
    user != "" && user in teachers
  }

  function Authenticate(teachers: set<string>, user: string): (r: Option<ApiError>)
    ensures r.None? <==> IsTeacher(teachers, user)
    ensures r == Some(AuthenticationRequired) <==> user == ""
    ensures r == Some(InvalidCredentials) <==> user != "" && user !in teachers
  {
    if user == "" then Some(AuthenticationRequired)
    else if user !in teachers then Some(InvalidCredentials)
    else None
  }

  /** The expiration parses and is not earlier than `now` (equality passes). */
  predicate NotExpired(parse: DateParser, expiration: string, now: Time) {
    parse(expiration).Some? && parse(expiration).value >= now
  }

  /** Python truthiness of an optional string: None and "" both count as absent. */
  predicate HasStart(start: Option<string>) {
    start.Some? && start.value != ""
  }

  /** A supplied start that parses and lies strictly before the expiration. */
  predicate StartsBefore(parse: DateParser, start: string, expiration: string) {
    parse(start).Some? && parse(expiration).Some? && parse(start).value < parse(expiration).value
  }

  function CheckExpiration(parse: DateParser, expiration: string, now: Time): Option<ApiError> {
    match parse(expiration)
    case None => Some(InvalidDateFormat)
    case Some(t) => if t < now then Some(ExpirationInPast) else None
  }

  function CheckStart(parse: DateParser, start: Option<string>, expiration: string): Option<ApiError> {
    if !HasStart(start) then None
    else match parse(start.value)
      case None => Some(InvalidDateFormat)
      case Some(s) =>
        if parse(expiration).Some? && s >= parse(expiration).value then Some(StartNotBeforeExpiration)
        else None
  }

  function CheckId(validId: string -> bool, store: map<Id, Announcement>, id: string): Option<ApiError> {
    if !validId(id) then Some(InvalidAnnouncementId)
    else if id !in store then Some(AnnouncementNotFound)
    else None
  }

  /** The checks of create, in the order the endpoint performs them. */
  function CreateCheck(teachers: set<string>, parse: DateParser, user: string,
                       req: AnnouncementCreate, now: Time): (r: Option<ApiError>)
    ensures user == "" ==> r == Some(AuthenticationRequired)
    ensures user != "" && user !in teachers ==> r == Some(InvalidCredentials)
    ensures IsTeacher(teachers, user) && parse(req.expirationDate).None? ==>
              r == Some(InvalidDateFormat)
    ensures IsTeacher(teachers, user) && parse(req.expirationDate).Some? &&
            parse(req.expirationDate).value < now ==>
              r == Some(ExpirationInPast)
    ensures IsTeacher(teachers, user) && NotExpired(parse, req.expirationDate, now) &&
            HasStart(req.startDate) && parse(req.startDate.value).None? ==>
              r == Some(InvalidDateFormat)
    ensures IsTeacher(teachers, user) && NotExpired(parse, req.expirationDate, now) &&
            HasStart(req.startDate) && parse(req.startDate.value).Some? &&
            parse(req.startDate.value).value >= parse(req.expirationDate).value ==>
              r == Some(StartNotBeforeExpiration)
    ensures r.None? <==>
              IsTeacher(teachers, user) && NotExpired(parse, req.expirationDate, now) &&
              (HasStart(req.startDate) ==> StartsBefore(parse, req.startDate.value, req.expirationDate))
  {
    Authenticate(teachers, user)
      .Or(CheckExpiration(parse, req.expirationDate, now))
      .Or(CheckStart(parse, req.startDate, req.expirationDate))
  }

  /** Every field of the update body is None. */
  predicate NoFields(u: AnnouncementUpdate) {
    u.message.None? && u.startDate.None? && u.expirationDate.None?
  }

  /** The checks of update, in the order the endpoint performs them. */
  function UpdateCheck(teachers: set<string>, parse: DateParser, validId: string -> bool,
                       store: map<Id, Announcement>, user: string, id: string,
                       u: AnnouncementUpdate, now: Time): (r: Option<ApiError>)
    ensures user == "" ==> r == Some(AuthenticationRequired)
    ensures user != "" && user !in teachers ==> r == Some(InvalidCredentials)
    ensures IsTeacher(teachers, user) && !validId(id) ==> r == Some(InvalidAnnouncementId)
    ensures IsTeacher(teachers, user) && validId(id) && id !in store ==>
              r == Some(AnnouncementNotFound)
    ensures IsTeacher(teachers, user) && validId(id) && id in store &&
            u.expirationDate.Some? && parse(u.expirationDate.value).None? ==>
              r == Some(InvalidDateFormat)
    ensures IsTeacher(teachers, user) && validId(id) && id in store &&
            u.expirationDate.Some? && parse(u.expirationDate.value).Some? &&
            parse(u.expirationDate.value).value < now ==>
              r == Some(ExpirationInPast)
    ensures IsTeacher(teachers, user) && validId(id) && id in store && NoFields(u) ==>
              r == Some(NoFieldsToUpdate)
    ensures r.None? <==>
              IsTeacher(teachers, user) && validId(id) && id in store && !NoFields(u) &&
              (u.expirationDate.Some? ==> NotExpired(parse, u.expirationDate.value, now))
  {
    Authenticate(teachers, user)
      .Or(CheckId(validId, store, id))
      .Or(if u.expirationDate.Some? then CheckExpiration(parse, u.expirationDate.value, now) else None)
      .Or(if NoFields(u) then Some(NoFieldsToUpdate) else None)
  }

  /** The checks of delete, in the order the endpoint performs them; the
      missing-record case is the `deleted_count == 0` branch. */
  function DeleteCheck(teachers: set<string>, validId: string -> bool,
                       store: map<Id, Announcement>, user: string, id: string): (r: Option<ApiError>)
    ensures user == "" ==> r == Some(AuthenticationRequired)
    ensures user != "" && user !in teachers ==> r == Some(InvalidCredentials)
    ensures IsTeacher(teachers, user) && !validId(id) ==> r == Some(InvalidAnnouncementId)
    ensures IsTeacher(teachers, user) && validId(id) && id !in store ==>
              r == Some(AnnouncementNotFound)
    ensures r.None? <==> IsTeacher(teachers, user) && validId(id) && id in store
  {
    Authenticate(teachers, user).Or(CheckId(validId, store, id))
  }

  // ---------------------------------------------------------------------------
  // Records

  /** The document create inserts. */
  function Created(req: AnnouncementCreate, user: string, now: Time): Announcement {
    Announcement(req.message, req.startDate, req.expirationDate, user, now)
  }

  /** Partial-update semantics: every supplied field replaces the stored one,
      every other field keeps its value. */
  function Merge(a: Announcement, u: AnnouncementUpdate): Announcement {
    a.(message := u.message.GetOr(a.message),
       startDate := if u.startDate.Some? then u.startDate else a.startDate,
       expirationDate := u.expirationDate.GetOr(a.expirationDate))
  }

  /** A store-side `{"$set": patch}` on one document. */
  function ApplySet(a: Announcement, patch: map<Field, string>): Announcement {
    a.(message := if Message in patch then patch[Message] else a.message,
       startDate := if StartDate in patch then Some(patch[StartDate]) else a.startDate,
       expirationDate := if ExpirationDate in patch then patch[ExpirationDate] else a.expirationDate)
  }

  /** The update document built from the non-None fields of the body. */
  function UpdateDoc(u: AnnouncementUpdate): (patch: map<Field, string>)
    ensures patch == map[] <==> NoFields(u)
    ensures Message in patch <==> u.message.Some?
    ensures StartDate in patch <==> u.startDate.Some?
    ensures ExpirationDate in patch <==> u.expirationDate.Some?
  {
    var m := if u.message.Some? then map[Message := u.message.value] else map[];
    var s := if u.startDate.Some? then m[StartDate := u.startDate.value] else m;
    var patch := if u.expirationDate.Some? then s[ExpirationDate := u.expirationDate.value] else s;
    assert Message in patch <==> u.message.Some?;
    assert StartDate in patch <==> u.startDate.Some?;
    assert ExpirationDate in patch <==> u.expirationDate.Some?;
    patch
  }

  /** `$set` of the update document is the field-wise merge, and it never
      touches `created_by` or `created_at`. */
  lemma SetOfUpdateDocIsMerge(a: Announcement, u: AnnouncementUpdate)
    ensures ApplySet(a, UpdateDoc(u)) == Merge(a, u)
    ensures Merge(a, u).createdBy == a.createdBy && Merge(a, u).createdAt == a.createdAt
  {
  }

  /** Merge field by field: a supplied field takes the body's value, an
      unsupplied one keeps the stored value; with nothing supplied the record
      is unchanged. */
  lemma MergeFieldwise(a: Announcement, u: AnnouncementUpdate)
    ensures u.message.Some? ==> Merge(a, u).message == u.message.value
    ensures u.message.None? ==> Merge(a, u).message == a.message
    ensures u.startDate.Some? ==> Merge(a, u).startDate == u.startDate
    ensures u.startDate.None? ==> Merge(a, u).startDate == a.startDate
    ensures u.expirationDate.Some? ==> Merge(a, u).expirationDate == u.expirationDate.value
    ensures u.expirationDate.None? ==> Merge(a, u).expirationDate == a.expirationDate
    ensures NoFields(u) ==> Merge(a, u) == a
  {
  }

  /** Applying the same partial update twice is the same as applying it once. */
  lemma MergeIdempotent(a: Announcement, u: AnnouncementUpdate)
    ensures Merge(Merge(a, u), u) == Merge(a, u)
  {
  }

  /** The later of two partial updates wins field by field. */
  function Overlay(first: AnnouncementUpdate, second: AnnouncementUpdate): AnnouncementUpdate {
    AnnouncementUpdate(
      second.message.Or(first.message),
      second.startDate.Or(first.startDate),
      second.expirationDate.Or(first.expirationDate))
  }

  /** Two successive updates compose into one: the later update overrides the
      earlier one on the fields it supplies. */
  lemma MergeSequential(a: Announcement, first: AnnouncementUpdate, second: AnnouncementUpdate)
    ensures Merge(Merge(a, first), second) == Merge(a, Overlay(first, second))
  {
  }

  /** The start/expiration ordering of a record. */
  predicate WindowOrdered(parse: DateParser, a: Announcement) {
    HasStart(a.startDate) ==> StartsBefore(parse, a.startDate.value, a.expirationDate)
  }

  /** A record that create accepts has a well-ordered window and a parseable
      expiration no earlier than its creation time. */
  lemma CreatedWindowOrdered(teachers: set<string>, parse: DateParser, user: string,
                             req: AnnouncementCreate, now: Time)
    requires CreateCheck(teachers, parse, user, req, now).None?
    ensures WindowOrdered(parse, Created(req, user, now))
    ensures NotExpired(parse, Created(req, user, now).expirationDate, now)
    ensures Created(req, user, now).createdBy in teachers
  {
  }

  /** Update re-validates the expiration alone: moving the expiration before an
      existing start is accepted and yields a record whose window is inverted. */
  lemma UpdateMayInvertWindow(teachers: set<string>, parse: DateParser, validId: string -> bool,
                              store: map<Id, Announcement>, user: string, id: string,
                              expiration: string, now: Time)
    requires IsTeacher(teachers, user) && validId(id) && id in store
    requires HasStart(store[id].startDate) && parse(store[id].startDate.value).Some?
    requires parse(expiration).Some? && now <= parse(expiration).value
    requires parse(expiration).value <= parse(store[id].startDate.value).value
    ensures UpdateCheck(teachers, parse, validId, store, user, id,
                        AnnouncementUpdate(None, None, Some(expiration)), now).None?
    ensures !WindowOrdered(parse, Merge(store[id], AnnouncementUpdate(None, None, Some(expiration))))
  {
  }

  // ---------------------------------------------------------------------------
  // The active window

  /** No start, an empty start, or a start that parses and is not after `now`. */
  predicate HasStarted(parse: DateParser, start: Option<string>, now: Time) {
    !HasStart(start) || (parse(start.value).Some? && parse(start.value).value <= now)
  }

  /** The filter of list-active: expiration at or after `now`, start absent or
      at or before `now`. */
  predicate IsActive(parse: DateParser, a: Announcement, now: Time) {
    NotExpired(parse, a.expirationDate, now) && HasStarted(parse, a.startDate, now)
  }

  /** Expired records, pending records and unstarted-but-open records as the
      list-active filter treats them. */
  lemma ActiveWindow(parse: DateParser, a: Announcement, now: Time)
    ensures parse(a.expirationDate).Some? && parse(a.expirationDate).value < now ==>
              !IsActive(parse, a, now)
    ensures HasStart(a.startDate) && parse(a.startDate.value).Some? &&
            parse(a.startDate.value).value > now ==>
              !IsActive(parse, a, now)
    ensures a.startDate.None? && NotExpired(parse, a.expirationDate, now) ==>
              IsActive(parse, a, now)
  {
  }

  /** A record create accepts at `now` is listed as active at `now` exactly
      when it has no start or its start is not after `now`. */
  lemma CreatedIsActiveUnlessPending(teachers: set<string>, parse: DateParser, user: string,
                                     req: AnnouncementCreate, now: Time)
    requires CreateCheck(teachers, parse, user, req, now).None?
    ensures IsActive(parse, Created(req, user, now), now) <==>
              (!HasStart(req.startDate) || parse(req.startDate.value).value <= now)
  {
  }

  // ---------------------------------------------------------------------------
  // Listings

  /** The filter documents the listings pass to `find`: `{}` and
      `{"expiration_date": {"$gte": now}}`. */
  datatype Query = MatchAll | ExpirationAtLeast(now: Time)

  predicate Matches(parse: DateParser, q: Query, a: Announcement) {
    match q
    case MatchAll => true
    case ExpirationAtLeast(now) => NotExpired(parse, a.expirationDate, now)
  }


  /** Ordered by `created_at`, newest first. */
  ghost predicate NewestFirst(s: seq<Doc>) {
    forall i, j :: 0 <= i < j < |s| ==> s[i].body.createdAt >= s[j].body.createdAt
  }

  /** No identifier occurs twice. */
  ghost predicate DistinctIds(s: seq<Doc>) {
    forall i, j :: 0 <= i < j < |s| ==> s[i].id != s[j].id
  }

  /** `d` carries an identifier that no document of `s` has. */
  ghost predicate IdAbsent(d: Doc, s: seq<Doc>) {
    forall x :: x in s ==> x.id != d.id
  }

  /** Inserts one document into a newest-first sequence. */
  function InsertNewestFirst(d: Doc, s: seq<Doc>): (r: seq<Doc>)
    requires NewestFirst(s)
    ensures NewestFirst(r)
    ensures multiset(r) == multiset(s) + multiset{d}
    ensures forall x :: x in r <==> x == d || x in s
  {
    if s == [] || d.body.createdAt >= s[0].body.createdAt then
      PrependNewest(d, s);
      [d] + s
    else
      var rest := InsertNewestFirst(d, s[1..]);
      assert s == [s[0]] + s[1..];
      forall x | x in rest ensures s[0].body.createdAt >= x.body.createdAt {
        if x != d {
          var k :| 0 <= k < |s[1..]| && s[1..][k] == x;
          assert s[k + 1] == x;
        }
      }
      PrependNewest(s[0], rest);
      [s[0]] + rest
  }

  /** A document no older than every element may go in front. */
  lemma PrependNewest(d: Doc, s: seq<Doc>)
    requires NewestFirst(s)
    requires forall x :: x in s ==> d.body.createdAt >= x.body.createdAt
    ensures NewestFirst([d] + s)
  {
  }

  /** A document with a new identifier may go in front. */
  lemma PrependDistinct(d: Doc, s: seq<Doc>)
    requires DistinctIds(s) && IdAbsent(d, s)
    ensures DistinctIds([d] + s)
  {
  }

  /** A document no newer than every element may go at the end. */
  lemma AppendOldest(s: seq<Doc>, d: Doc)
    requires NewestFirst(s)
    requires forall x :: x in s ==> x.body.createdAt >= d.body.createdAt
    ensures NewestFirst(s + [d])
  {
  }

  /** A document with a new identifier may go at the end. */
  lemma AppendDistinct(s: seq<Doc>, d: Doc)
    requires DistinctIds(s) && IdAbsent(d, s)
    ensures DistinctIds(s + [d])
  {
  }

  /** Inserting a document whose identifier is new keeps identifiers distinct. */
  lemma {:induction false} InsertKeepsIdsDistinct(d: Doc, s: seq<Doc>)
    requires NewestFirst(s) && DistinctIds(s) && IdAbsent(d, s)
    ensures DistinctIds(InsertNewestFirst(d, s))
  {
    if s == [] || d.body.createdAt >= s[0].body.createdAt {
      PrependDistinct(d, s);
    } else {
      assert s == [s[0]] + s[1..];
      InsertKeepsIdsDistinct(d, s[1..]);
      var rest := InsertNewestFirst(d, s[1..]);
      forall x | x in rest ensures x.id != s[0].id {
        if x != d {
          var k :| 0 <= k < |s[1..]| && s[1..][k] == x;
          assert s[k + 1] == x;
        } else {
          assert s[0] in s;
        }
      }
      PrependDistinct(s[0], rest);
    }
  }

  /** The store's `.sort("created_at", -1)`: a permutation of its input ordered
      newest first. */
  function SortNewestFirst(s: seq<Doc>): (r: seq<Doc>)
    ensures NewestFirst(r)
    ensures multiset(r) == multiset(s)
    ensures forall x :: x in r <==> x in s
  {
    if s == [] then []
    else
      assert s == [s[0]] + s[1..];
      InsertNewestFirst(s[0], SortNewestFirst(s[1..]))
  }

  /** Sorting never duplicates an identifier. */
  lemma {:induction false} SortKeepsIdsDistinct(s: seq<Doc>)
    requires DistinctIds(s)
    ensures DistinctIds(SortNewestFirst(s))
  {
    if s != [] {
      assert s == [s[0]] + s[1..];
      assert DistinctIds(s[1..]) by {
        forall i, j | 0 <= i < j < |s[1..]| ensures s[1..][i].id != s[1..][j].id {
          assert s[1..][i] == s[i + 1] && s[1..][j] == s[j + 1];
        }
      }
      SortKeepsIdsDistinct(s[1..]);
      forall x | x in SortNewestFirst(s[1..]) ensures x.id != s[0].id {
        var k :| 0 <= k < |s[1..]| && s[1..][k] == x;
        assert s[k + 1] == x;
      }
      InsertKeepsIdsDistinct(s[0], SortNewestFirst(s[1..]));
    }
  }
}

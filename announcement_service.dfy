/** The announcements router as an object over its document collection: the
    collection is a map from identifier to document that the mutating
    endpoints update in place; the teacher directory, the ISO date parser and
    the ObjectId syntax check are capabilities fixed at construction. */
module AnnouncementService {
  import opened AnnouncementRules

  class AnnouncementRouter {
    const teachers: set<string>
    const parse: DateParser
    const validId: string -> bool
    var store: map<Id, Announcement>

    /** The invariant the endpoints keep for their own sake: every stored
        document has a well-formed identifier, an expiration that parses
        (create and update validate it), and was created by a registered
        teacher. No postcondition relies on it. */
    ghost predicate Valid()
      reads this
    {
      forall id :: id in store ==>
        validId(id) && parse(store[id].expirationDate).Some? && store[id].createdBy in teachers
    }

    constructor (teachers: set<string>, parse: DateParser, validId: string -> bool)
      ensures Valid()
      ensures this.teachers == teachers && this.parse == parse && this.validId == validId
      ensures store == map[]
    {
      this.teachers := teachers;
      this.parse := parse;
      this.validId := validId;
      store := map[];
    }

    /** The collection's `find(query)`: every stored document that matches
        the query, each once, in no particular order. */
    method Find(q: Query) returns (found: seq<Doc>)
      ensures DistinctIds(found)
      ensures forall d :: d in found ==> d.id in store && store[d.id] == d.body && Matches(parse, q, d.body)
      ensures forall id :: id in store && Matches(parse, q, store[id]) ==> Doc(id, store[id]) in found
    {
      found := [];
      var rest := store.Keys;
      while rest != {}
        invariant rest <= store.Keys
        invariant DistinctIds(found)
        invariant forall d :: d in found ==>
                    d.id in store && d.id !in rest && store[d.id] == d.body && Matches(parse, q, d.body)
        invariant forall id :: id in store && id !in rest && Matches(parse, q, store[id]) ==>
                    Doc(id, store[id]) in found
        decreases rest
      {
        var id :| id in rest;
        if Matches(parse, q, store[id]) {
          AppendDistinct(found, Doc(id, store[id]));
          found := found + [Doc(id, store[id])];
        }
        rest := rest - {id};
      }
    }

    /** The cursor `find(query).sort("created_at", -1)`: the matching
        documents, each once, newest first. */
    method FindNewestFirst(q: Query) returns (cursor: seq<Doc>)
      ensures NewestFirst(cursor) && DistinctIds(cursor)
      ensures forall d :: d in cursor ==> d.id in store && store[d.id] == d.body && Matches(parse, q, d.body)
      ensures forall id :: id in store && Matches(parse, q, store[id]) ==> Doc(id, store[id]) in cursor
    {
      var found := Find(q);
      SortKeepsIdsDistinct(found);
      cursor := SortNewestFirst(found);
    }

    /** get_active_announcements: the stored documents inside their display
        window at `now`, newest first. */
    method ListActive(now: Time) returns (r: seq<Doc>)
      ensures NewestFirst(r) && DistinctIds(r)
      ensures forall d :: d in r ==> d.id in store && store[d.id] == d.body && IsActive(parse, d.body, now)
      ensures forall id :: id in store && IsActive(parse, store[id], now) ==> Doc(id, store[id]) in r
    {
      var cursor := FindNewestFirst(ExpirationAtLeast(now));
      r := [];
      var i := 0;
      while i < |cursor|
        invariant 0 <= i <= |cursor|
        invariant NewestFirst(r) && DistinctIds(r)
        invariant i < |cursor| ==>
                    forall d :: d in r ==> d.body.createdAt >= cursor[i].body.createdAt
        invariant forall d, k :: d in r && i <= k < |cursor| ==> d.id != cursor[k].id
        invariant forall d :: d in r ==> d in cursor && HasStarted(parse, d.body.startDate, now)
        invariant forall k :: 0 <= k < i && HasStarted(parse, cursor[k].body.startDate, now) ==>
                    cursor[k] in r
      {
        var d := cursor[i];
        if HasStarted(parse, d.body.startDate, now) {
          AppendOldest(r, d);
          AppendDistinct(r, d);
          r := r + [d];
        }
        i := i + 1;
      }
    }

    /** get_all_announcements: every stored document, newest first, for a
        registered teacher. */
    method ListAll(user: string) returns (r: Result<seq<Doc>>)
      ensures r.Err? <==> !IsTeacher(teachers, user)
      ensures r.Err? ==> Some(r.error) == Authenticate(teachers, user)
      ensures r.Ok? ==> NewestFirst(r.value) && DistinctIds(r.value)
      ensures r.Ok? ==> forall d :: d in r.value ==> d.id in store && store[d.id] == d.body
      ensures r.Ok? ==> forall id :: id in store ==> Doc(id, store[id]) in r.value
    {
      var denied := Authenticate(teachers, user);
      if denied.Some? {
        return Err(denied.value);
      }
      var cursor := FindNewestFirst(MatchAll);
      r := Ok(cursor);
    }

    /** create_announcement. `newId` is the fresh ObjectId the collection
        assigns on insertion. */
    method Create(user: string, req: AnnouncementCreate, now: Time, newId: Id) returns (r: Result<Doc>)
      requires Valid()
      requires validId(newId) && newId !in store
      modifies this
      ensures Valid()
      ensures r == match CreateCheck(teachers, parse, user, req, now)
                   case Some(e) => Err(e)
                   case None => Ok(Doc(newId, Created(req, user, now)))
      ensures r.Err? ==> store == old(store)
      ensures r.Ok? ==> store == old(store)[newId := Created(req, user, now)]
    {
      var denied := Authenticate(teachers, user);
      if denied.Some? {
        return Err(denied.value);
      }
      match parse(req.expirationDate)
      case None =>
        return Err(InvalidDateFormat);
      case Some(expiration) =>
        if expiration < now {
          return Err(ExpirationInPast);
        }
        if HasStart(req.startDate) {
          match parse(req.startDate.value)
          case None =>
            return Err(InvalidDateFormat);
          case Some(start) =>
            if start >= expiration {
              return Err(StartNotBeforeExpiration);
            }
        }
      var doc := Announcement(req.message, req.startDate, req.expirationDate, user, now);
      store := store[newId := doc];
      r := Ok(Doc(newId, doc));
    }

    /** update_announcement: a partial update of one document. */
    method Update(user: string, id: string, u: AnnouncementUpdate, now: Time) returns (r: Result<Doc>)
      requires Valid()
      modifies this
      ensures Valid()
      ensures r.Err? <==> UpdateCheck(teachers, parse, validId, old(store), user, id, u, now).Some?
      ensures r.Err? ==> Some(r.error) == UpdateCheck(teachers, parse, validId, old(store), user, id, u, now)
      ensures r.Err? ==> store == old(store)
      ensures r.Ok? ==> id in old(store) && r.value == Doc(id, Merge(old(store)[id], u))
      ensures r.Ok? ==> store == old(store)[id := Merge(old(store)[id], u)]
    {
      var denied := Authenticate(teachers, user);
      if denied.Some? {
        return Err(denied.value);
      }
      if !validId(id) {
        return Err(InvalidAnnouncementId);
      }
      if id !in store {
        return Err(AnnouncementNotFound);
      }
      var updateDoc: map<Field, string> := map[];
      if u.message.Some? {
        updateDoc := updateDoc[Message := u.message.value];
      }
      if u.startDate.Some? {
        updateDoc := updateDoc[StartDate := u.startDate.value];
      }
      if u.expirationDate.Some? {
        var invalid := CheckExpiration(parse, u.expirationDate.value, now);
        if invalid.Some? {
          return Err(invalid.value);
        }
        updateDoc := updateDoc[ExpirationDate := u.expirationDate.value];
      }
      assert Message in updateDoc <==> u.message.Some?;
      assert StartDate in updateDoc <==> u.startDate.Some?;
      assert updateDoc == UpdateDoc(u);
      if updateDoc == map[] {
        return Err(NoFieldsToUpdate);
      }
      SetOfUpdateDocIsMerge(store[id], u);
      var updated := ApplySet(store[id], updateDoc);
      store := store[id := updated];
      r := Ok(Doc(id, updated));
    }

    /** delete_announcement: removes exactly one document. */
    method Delete(user: string, id: string) returns (r: Result<string>)
      requires Valid()
      modifies this
      ensures Valid()
      ensures r.Err? <==> DeleteCheck(teachers, validId, old(store), user, id).Some?
      ensures r.Err? ==> Some(r.error) == DeleteCheck(teachers, validId, old(store), user, id)
      ensures r.Err? ==> store == old(store)
      ensures r.Ok? ==> id in old(store) && r.value == DeletedMessage
      ensures r.Ok? ==> store == old(store) - {id}
    {
      var denied := Authenticate(teachers, user);
      if denied.Some? {
        return Err(denied.value);
      }
      if !validId(id) {
        return Err(InvalidAnnouncementId);
      }
      var deletedCount := if id in store then 1 else 0;
      store := store - {id};
      if deletedCount == 0 {
        return Err(AnnouncementNotFound);
      }
      r := Ok(DeletedMessage);
    }
  }

  lemma LeadingElementsIn(s: seq<Doc>)
    ensures |s| > 0 ==> s[0] in s
    ensures |s| > 1 ==> s[1] in s
  {
  }

  /** A single-document store lists that document, and nothing else. */
  lemma OnlyDocListed(store: map<Id, Announcement>, id: Id, r: seq<Doc>)
    requires store.Keys == {id} && DistinctIds(r)
    requires forall d :: d in r ==> d.id in store && store[d.id] == d.body
    requires Doc(id, store[id]) in r
    ensures r == [Doc(id, store[id])]
  {
    LeadingElementsIn(r);
  }

  /** A registered teacher creates an announcement that expires in the future
      and has no start: it is returned with its input fields, and both
      listings then show exactly that announcement. */
  method CreatedAnnouncementIsListed(teachers: set<string>, parse: DateParser, validId: string -> bool,
                                     user: string, req: AnnouncementCreate, now: Time, newId: Id)
    returns (created: Result<Doc>, active: seq<Doc>, all: Result<seq<Doc>>)
    requires IsTeacher(teachers, user) && validId(newId)
    requires NotExpired(parse, req.expirationDate, now) && req.startDate.None?
    ensures created == Ok(Doc(newId, Created(req, user, now)))
    ensures active == [created.value]
    ensures all == Ok([created.value])
  {
    var router := new AnnouncementRouter(teachers, parse, validId);
    created := router.Create(user, req, now, newId);
    active := router.ListActive(now);
    OnlyDocListed(router.store, newId, active);
    all := router.ListAll(user);
    OnlyDocListed(router.store, newId, all.value);
  }

  /** Create, update the message, delete: the update changes the message only,
      the listing shows it, the delete empties the store and a second delete
      of the same identifier reports that it is gone. */
  method UpdateThenDelete(teachers: set<string>, parse: DateParser, validId: string -> bool,
                          user: string, req: AnnouncementCreate, now: Time, newId: Id, message: string)
    returns (updated: Result<Doc>, listed: Result<seq<Doc>>, deleted: Result<string>,
             listedAfter: Result<seq<Doc>>, deletedAgain: Result<string>)
    requires IsTeacher(teachers, user) && validId(newId)
    requires CreateCheck(teachers, parse, user, req, now).None?
    ensures updated == Ok(Doc(newId, Created(req, user, now).(message := message)))
    ensures listed == Ok([updated.value])
    ensures deleted == Ok(DeletedMessage)
    ensures listedAfter == Ok([])
    ensures deletedAgain == Err(AnnouncementNotFound)
  {
    var router := new AnnouncementRouter(teachers, parse, validId);
    var created := router.Create(user, req, now, newId);
    updated := router.Update(user, newId, AnnouncementUpdate(Some(message), None, None), now);
    listed := router.ListAll(user);
    OnlyDocListed(router.store, newId, listed.value);
    deleted := router.Delete(user, newId);
    listedAfter := router.ListAll(user);
    LeadingElementsIn(listedAfter.value);
    deletedAgain := router.Delete(user, newId);
  }
}

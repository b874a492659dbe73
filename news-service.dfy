/**
 * The service layer: the business rules checked before every write, and the
 * create, read, update and delete operations that sequence those checks with
 * the repository's table operations. The clock is the explicit `now` argument.
 */
module NewsService {
  import opened Wrappers
  import opened NewsRepository
  import JsNumbers

  /** The error names `createError` is called with. */
  datatype ErrorName = NotFound | Conflict | BadRequest

  /** The `{ name, message }` object that `createError` builds and the service throws. */
  datatype ServiceError = ServiceError(name: ErrorName, message: string)

  /** The shortest text an article may have. */
  const MinTextLength: nat := 500

  const TextTooShortMessage := "The news text must be at least 500 characters long."
  const DateInPastMessage := "The publication date cannot be in the past."

  const NotFoundPrefix := "News with id "
  const ConflictPrefix := "News with title "

  /** The `NotFound` error for `id`: its message names the id, which reads back from the text after the prefix. */
  function NotFoundError(id: int): (e: ServiceError)
    ensures e.name == NotFound
    ensures |e.message| > |NotFoundPrefix| && e.message[..|NotFoundPrefix|] == NotFoundPrefix
    ensures JsNumbers.ParseInt(e.message[|NotFoundPrefix|..]) == JsNumbers.Num(id)
  {
    var tail := JsNumbers.NumberToString(id) + " not found.";
    JsNumbers.ParseIntNumeralPrefix(id, " not found.");
    assert (NotFoundPrefix + tail)[|NotFoundPrefix|..] == tail;
    ServiceError(NotFound, NotFoundPrefix + tail)
  }

  /** The `Conflict` error for `title`: its message quotes the title right after the prefix. */
  function ConflictError(title: string): (e: ServiceError)
    ensures e.name == Conflict
    ensures |e.message| >= |ConflictPrefix| + |title|
    ensures e.message[..|ConflictPrefix|] == ConflictPrefix
    ensures e.message[|ConflictPrefix|..|ConflictPrefix| + |title|] == title
  {
    var m := ConflictPrefix + title + " already exists";
    assert m[..|ConflictPrefix|] == ConflictPrefix;
    assert m[|ConflictPrefix|..|ConflictPrefix| + |title|] == title;
    ServiceError(Conflict, m)
  }

  /**
   * `findFirst({ where: { title } })` finds a row: it is taken when some stored article has
   * exactly this title, and only then.
   */
  function TitleTaken(rows: map<int, News>, title: string): (taken: bool)
    ensures forall k :: k in rows && rows[k].title == title ==> taken
    ensures taken ==> exists k :: k in rows && rows[k].title == title
  {
    exists k :: k in rows && rows[k].title == title
  }

  /**
   * `validateNewsData(newsData, isNew)`: with `isNew`, a title already in the table is a
   * `Conflict`; then a text under 500 characters is a `BadRequest`; then a publication
   * date before `now` is a `BadRequest`. The first failing check is the one reported.
   */
  function ValidateNewsData(rows: map<int, News>, data: NewsData, isNew: bool, now: Timestamp): (r: Option<ServiceError>)
    ensures r.None? <==> (!isNew || !TitleTaken(rows, data.title))
                         && |data.text| >= MinTextLength && data.publicationDate >= now
    ensures r.Some? ==> r.value.name != NotFound
    ensures r.Some? && r.value.name == Conflict <==> isNew && TitleTaken(rows, data.title)
  {
    if isNew && TitleTaken(rows, data.title) then Some(ConflictError(data.title))
    else if |data.text| < MinTextLength then Some(ServiceError(BadRequest, TextTooShortMessage))
    else if data.publicationDate < now then Some(ServiceError(BadRequest, DateInPastMessage))
    else None
  }

  /** No two stored articles share a title. */
  ghost predicate TitlesUnique(rows: map<int, News>) {
    forall i, j :: i in rows && j in rows && i != j ==> rows[i].title != rows[j].title
  }

  /** Every stored text has at least the minimum length. */
  ghost predicate TextsLongEnough(rows: map<int, News>) {
    forall k :: k in rows ==> |rows[k].text| >= MinTextLength
  }

  /** The invariant the write checks are there to keep. */
  ghost predicate TableInvariant(rows: map<int, News>) {
    TitlesUnique(rows) && TextsLongEnough(rows)
  }

  /** A conflict is reported whatever the text and the date are: uniqueness is checked first. */
  lemma ConflictReportedFirst(rows: map<int, News>, data: NewsData, now: Timestamp)
    requires TitleTaken(rows, data.title)
    ensures ValidateNewsData(rows, data, true, now) == Some(ConflictError(data.title))
  {
  }

  /** Without a conflict, a short text is reported even when the date is also in the past. */
  lemma TextCheckedBeforeDate(rows: map<int, News>, data: NewsData, isNew: bool, now: Timestamp)
    requires !(isNew && TitleTaken(rows, data.title))
    requires |data.text| < MinTextLength
    ensures ValidateNewsData(rows, data, isNew, now) == Some(ServiceError(BadRequest, TextTooShortMessage))
  {
  }

  /** A text of exactly 500 characters passes the length check; one of 499 does not. */
  lemma TextLengthBoundary(rows: map<int, News>, data: NewsData, isNew: bool, now: Timestamp)
    requires !(isNew && TitleTaken(rows, data.title))
    ensures |data.text| == 500 ==> ValidateNewsData(rows, data, isNew, now) != Some(ServiceError(BadRequest, TextTooShortMessage))
    ensures |data.text| == 499 ==> ValidateNewsData(rows, data, isNew, now) == Some(ServiceError(BadRequest, TextTooShortMessage))
  {
  }

  /** A publication date equal to `now` passes; one strictly before it is rejected. */
  lemma DateBoundary(rows: map<int, News>, data: NewsData, isNew: bool, now: Timestamp)
    requires !(isNew && TitleTaken(rows, data.title)) && |data.text| >= MinTextLength
    ensures data.publicationDate == now ==> ValidateNewsData(rows, data, isNew, now) == None
    ensures data.publicationDate < now ==> ValidateNewsData(rows, data, isNew, now) == Some(ServiceError(BadRequest, DateInPastMessage))
  {
  }

  /** Inserting a validated new article under a fresh id keeps the table invariant. */
  lemma CreatePreservesInvariant(rows: map<int, News>, data: NewsData, id: int, createdAt: Timestamp, now: Timestamp)
    requires TableInvariant(rows)
    requires id !in rows
    requires ValidateNewsData(rows, data, true, now).None?
    ensures TableInvariant(rows[id := NewRow(id, data, createdAt)])
  {
    var rows' := rows[id := NewRow(id, data, createdAt)];
    forall i, j | i in rows' && j in rows' && i != j
      ensures rows'[i].title != rows'[j].title
    {
      if i == id {
        assert rows'[j] == rows[j];
      } else if j == id {
        assert rows'[i] == rows[i];
      }
    }
  }

  /**
   * Replacing row `id` with validated data keeps the table invariant. With the title
   * unchanged no uniqueness check runs, and none is needed: the row keeps its own title.
   */
  lemma UpdatePreservesInvariant(rows: map<int, News>, id: int, data: NewsData, now: Timestamp)
    requires TableInvariant(rows)
    requires id in rows
    requires ValidateNewsData(rows, data, rows[id].title != data.title, now).None?
    ensures TableInvariant(rows[id := ReplacedRow(rows[id], data)])
  {
    var rows' := rows[id := ReplacedRow(rows[id], data)];
    forall i, j | i in rows' && j in rows' && i != j
      ensures rows'[i].title != rows'[j].title
    {
      if i == id {
        assert rows'[j] == rows[j];
      } else if j == id {
        assert rows'[i] == rows[i];
      }
    }
  }

  /** `getAllNews`: the repository's list of every row, newest publication first. */
  method GetAllNews(db: NewsTable) returns (list: seq<News>)
    requires db.Valid()
    ensures SortedByDateDesc(list)
    ensures multiset(Ids(list)) == multiset(db.rows.Keys)
    ensures AllStored(list, db.rows)
  {
    list := db.GetNews();
  }

  /** `getNewsById`: the stored row, or a `NotFound` error when the id is absent. */
  method GetNewsById(db: NewsTable, id: int) returns (r: Result<News, ServiceError>)
    requires db.Valid()
    ensures id in db.rows ==> r == Ok(db.rows[id])
    ensures id !in db.rows ==> r == Err(NotFoundError(id))
  {
    var news := db.GetNewsById(id);
    if news.None? {
      return Err(NotFoundError(id));
    }
    r := Ok(news.value);
  }

  /** `createNewNews`: validate as a new article, then insert it. */
  method CreateNewNews(db: NewsTable, data: NewsData, now: Timestamp, createdAt: Timestamp)
    returns (r: Result<News, ServiceError>)
    requires db.Valid()
    modifies db
    ensures db.Valid()
    ensures TitleTaken(old(db.rows), data.title) ==> r == Err(ConflictError(data.title))
    ensures ValidateNewsData(old(db.rows), data, true, now).Some? ==>
              r == Err(ValidateNewsData(old(db.rows), data, true, now).value) && unchanged(db)
    ensures ValidateNewsData(old(db.rows), data, true, now).None? ==>
              && r.Ok?
              && r.value.id !in old(db.rows)
              && r.value == NewRow(r.value.id, data, createdAt)
              && db.rows == old(db.rows)[r.value.id := r.value]
              && db.nextId == old(db.nextId) + 1
    ensures r.Ok? && TableInvariant(old(db.rows)) ==> TableInvariant(db.rows)
  {
    var check := ValidateNewsData(db.rows, data, true, now);
    if check.Some? {
      return Err(check.value);
    }
    var created := db.CreateNews(data, createdAt);
    if TableInvariant(old(db.rows)) {
      CreatePreservesInvariant(old(db.rows), data, created.id, createdAt, now);
    }
    r := Ok(created);
  }

  /**
   * `updateNews`: look the row up (`NotFound` when absent, before any validation), validate
   * with the uniqueness check only when the title changes, then replace the row.
   */
  method UpdateNews(db: NewsTable, id: int, data: NewsData, now: Timestamp)
    returns (r: Result<News, ServiceError>)
    requires db.Valid()
    modifies db
    ensures db.Valid()
    ensures id !in old(db.rows) ==> r == Err(NotFoundError(id)) && unchanged(db)
    ensures id in old(db.rows) ==>
              var check := ValidateNewsData(old(db.rows), data, old(db.rows)[id].title != data.title, now);
              && (check.Some? ==> r == Err(check.value) && unchanged(db))
              && (check.None? ==> r == Ok(ReplacedRow(old(db.rows)[id], data))
                                  && db.rows == old(db.rows)[id := r.value]
                                  && db.nextId == old(db.nextId))
    ensures id in old(db.rows) && old(db.rows)[id].title == data.title ==> !(r.Err? && r.error.name == Conflict)
    ensures id in old(db.rows) && old(db.rows)[id].title != data.title && TitleTaken(old(db.rows), data.title) ==>
              r == Err(ConflictError(data.title))
    ensures r.Ok? && TableInvariant(old(db.rows)) ==> TableInvariant(db.rows)
  {
    var current := GetNewsById(db, id);
    if current.Err? {
      return Err(current.error);
    }
    var check := ValidateNewsData(db.rows, data, current.value.title != data.title, now);
    if check.Some? {
      return Err(check.value);
    }
    var updated := db.UpdateNews(id, data);
    if TableInvariant(old(db.rows)) {
      UpdatePreservesInvariant(old(db.rows), id, data, now);
    }
    r := Ok(updated.value);
  }

  /** `deleteNews`: look the row up (`NotFound` when absent), then remove it and only it. */
  method DeleteNews(db: NewsTable, id: int) returns (r: Result<News, ServiceError>)
    requires db.Valid()
    modifies db
    ensures db.Valid()
    ensures id !in old(db.rows) ==> r == Err(NotFoundError(id)) && unchanged(db)
    ensures id in old(db.rows) ==>
              && r == Ok(old(db.rows)[id])
              && db.rows == old(db.rows) - {id}
              && db.nextId == old(db.nextId)
    ensures r.Ok? && TableInvariant(old(db.rows)) ==> TableInvariant(db.rows)
  {
    var current := GetNewsById(db, id);
    if current.Err? {
      return Err(current.error);
    }
    var deleted := db.DeleteNews(id);
    r := Ok(deleted.value);
  }
}

/**
 * The controller layer: the id check on the path parameter and, per handler, the
 * HTTP status chosen from that check and from the service's result. Every error the
 * service throws is caught by the handler and answered with 500.
 */
module NewsController {
  import opened Wrappers
  import opened NewsRepository
  import opened NewsService
  import JsNumbers

  const StatusOk := 200
  const StatusCreated := 201
  const StatusNoContent := 204
  const StatusBadRequest := 400
  const StatusNotFound := 404
  const StatusInternalServerError := 500

  const InvalidIdMessage := "Invalid news ID."

  /** What a handler sends: a text message, one article, a list of articles, or nothing. */
  datatype Body = Message(text: string) | Article(news: News) | Articles(list: seq<News>) | NoBody

  datatype Response = Response(status: int, body: Body)

  /** `validateNewsId`: the value `parseInt` reads from the path parameter, kept only when it is a number above 0. */
  function ValidateNewsId(id: string): (r: Option<int>)
    ensures r.Some? ==> r.value > 0 && JsNumbers.ParseInt(id) == JsNumbers.Num(r.value)
    ensures r.None? ==> JsNumbers.ParseInt(id).NaN? || JsNumbers.ParseInt(id).value <= 0
  {
    match JsNumbers.ParseInt(id)
    case NaN => None
    case Num(v) => if v > 0 then Some(v) else None
  }

  /**
   * A run of decimal digits with a positive value, followed by anything but a digit, is
   * accepted as that value: "12abc" and "0012abc" both give 12.
   */
  lemma ValidateNewsIdDecimalPrefix(d: string, junk: string)
    requires d != [] && (forall i :: 0 <= i < |d| ==> JsNumbers.DigitValue(d[i]) < 10)
    requires JsNumbers.DigitsValue(d, 10) > 0
    requires junk == [] || JsNumbers.DigitValue(junk[0]) >= 10
    ensures ValidateNewsId(d + junk) == Some(JsNumbers.DigitsValue(d, 10))
  {
    JsNumbers.ParseIntDecimalPrefix(d, junk);
  }

  /** Every valid id is accepted back from its own text. */
  lemma ValidateNewsIdRoundTrip(n: int)
    requires n > 0
    ensures ValidateNewsId(JsNumbers.NumberToString(n)) == Some(n)
  {
    JsNumbers.ParseIntOfNumberToString(n);
  }

  /** "0" is no valid id: it parses, but to 0. */
  lemma ValidateNewsIdRejectsZero()
    ensures ValidateNewsId("0") == None
  {
    JsNumbers.ParseIntOfNumberToString(0);
    assert JsNumbers.NumberToString(0) == "0";
  }

  /** Whatever follows a leading minus (after any white space), the id is rejected: "-5", "-007", " -1x". */
  lemma ValidateNewsIdRejectsNegative(s: string)
    requires JsNumbers.TrimStart(s) != [] && JsNumbers.TrimStart(s)[0] == '-'
    ensures ValidateNewsId(s) == None
  {
  }

  /**
   * A string with no digit to read after the white space and the sign is no valid id:
   * "abc", "+abc" and "  abc" give `NaN`, and so do "0x" and "0xg".
   */
  lemma ValidateNewsIdRejectsNoDigits(s: string)
    requires JsNumbers.NoDigitToRead(JsNumbers.AfterSign(JsNumbers.TrimStart(s)))
    ensures ValidateNewsId(s) == None
  {
  }

  /** Leading white space is skipped before the id is read: " 12" is accepted as 12. */
  lemma ValidateNewsIdSkipsWhitespace(ws: string, s: string)
    requires forall i :: 0 <= i < |ws| ==> JsNumbers.IsJsWhitespace(ws[i])
    ensures ValidateNewsId(ws + s) == ValidateNewsId(s)
  {
    JsNumbers.ParseIntSkipsWhitespace(ws, s);
  }

  /** `getNews`: 200 with every stored article, newest publication first. */
  method GetNews(db: NewsTable) returns (resp: Response)
    requires db.Valid()
    ensures resp.status == StatusOk && resp.body.Articles?
    ensures SortedByDateDesc(resp.body.list)
    ensures multiset(Ids(resp.body.list)) == multiset(db.rows.Keys)
    ensures AllStored(resp.body.list, db.rows)
  {
    var news := GetAllNews(db);
    resp := Response(StatusOk, Articles(news));
  }

  /**
   * `getSpecificNews`: 400 for an invalid id, without looking at the table; otherwise 200
   * with the stored article. The service throws instead of returning `null` for an absent
   * id, so that case reaches the catch and answers 500; 404 is never sent.
   */
  method GetSpecificNews(db: NewsTable, idParam: string) returns (resp: Response)
    requires db.Valid()
    ensures ValidateNewsId(idParam).None? ==> resp == Response(StatusBadRequest, Message(InvalidIdMessage))
    ensures ValidateNewsId(idParam).Some? && ValidateNewsId(idParam).value in db.rows ==>
              resp == Response(StatusOk, Article(db.rows[ValidateNewsId(idParam).value]))
    ensures ValidateNewsId(idParam).Some? && ValidateNewsId(idParam).value !in db.rows ==>
              resp == Response(StatusInternalServerError, Message("Error fetching news."))
    ensures resp.status != StatusNotFound
  {
    var id := ValidateNewsId(idParam);
    if id.None? {
      return Response(StatusBadRequest, Message(InvalidIdMessage));
    }
    var news := NewsService.GetNewsById(db, id.value);
    match news
    case Ok(n) => resp := Response(StatusOk, Article(n));
    case Err(_) => resp := Response(StatusInternalServerError, Message("Error fetching news."));
  }

  /** `createNews`: 201 with the created article, or 500 for any error the service throws. */
  method CreateNews(db: NewsTable, data: NewsData, now: Timestamp, createdAt: Timestamp) returns (resp: Response)
    requires db.Valid()
    modifies db
    ensures db.Valid()
    ensures ValidateNewsData(old(db.rows), data, true, now).Some? ==>
              resp == Response(StatusInternalServerError, Message("Error creating news.")) && unchanged(db)
    ensures ValidateNewsData(old(db.rows), data, true, now).None? ==>
              && resp.status == StatusCreated && resp.body.Article?
              && resp.body.news.id !in old(db.rows)
              && resp.body.news == NewRow(resp.body.news.id, data, createdAt)
              && db.rows == old(db.rows)[resp.body.news.id := resp.body.news]
              && db.nextId == old(db.nextId) + 1
    ensures TableInvariant(old(db.rows)) ==> TableInvariant(db.rows)
  {
    var created := CreateNewNews(db, data, now, createdAt);
    match created
    case Ok(n) => resp := Response(StatusCreated, Article(n));
    case Err(_) => resp := Response(StatusInternalServerError, Message("Error creating news."));
  }

  /**
   * `alterNews`: 400 for an invalid id, without touching the table; otherwise 200 with the
   * updated article, or 500 for any error the service throws (an absent id included: 404
   * is never sent).
   */
  method AlterNews(db: NewsTable, idParam: string, data: NewsData, now: Timestamp) returns (resp: Response)
    requires db.Valid()
    modifies db
    ensures db.Valid()
    ensures ValidateNewsId(idParam).None? ==> resp == Response(StatusBadRequest, Message(InvalidIdMessage)) && unchanged(db)
    ensures ValidateNewsId(idParam).Some? ==>
              var id := ValidateNewsId(idParam).value;
              && (id !in old(db.rows) ==> resp == Response(StatusInternalServerError, Message("Error altering news.")) && unchanged(db))
              && (id in old(db.rows) ==>
                    var check := ValidateNewsData(old(db.rows), data, old(db.rows)[id].title != data.title, now);
                    && (check.Some? ==> resp == Response(StatusInternalServerError, Message("Error altering news.")) && unchanged(db))
                    && (check.None? ==> resp == Response(StatusOk, Article(ReplacedRow(old(db.rows)[id], data)))
                                        && db.rows == old(db.rows)[id := ReplacedRow(old(db.rows)[id], data)]
                                        && db.nextId == old(db.nextId)))
    ensures resp.status != StatusNotFound
    ensures TableInvariant(old(db.rows)) ==> TableInvariant(db.rows)
  {
    var id := ValidateNewsId(idParam);
    if id.None? {
      return Response(StatusBadRequest, Message(InvalidIdMessage));
    }
    var altered := NewsService.UpdateNews(db, id.value, data, now);
    match altered
    case Ok(n) => resp := Response(StatusOk, Article(n));
    case Err(_) => resp := Response(StatusInternalServerError, Message("Error altering news."));
  }

  /** `deleteNews`: 400 for an invalid id, without touching the table; 204 once the row is removed; 500 for any error. */
  method DeleteNews(db: NewsTable, idParam: string) returns (resp: Response)
    requires db.Valid()
    modifies db
    ensures db.Valid()
    ensures ValidateNewsId(idParam).None? ==> resp == Response(StatusBadRequest, Message(InvalidIdMessage)) && unchanged(db)
    ensures ValidateNewsId(idParam).Some? ==>
              var id := ValidateNewsId(idParam).value;
              && (id !in old(db.rows) ==> resp == Response(StatusInternalServerError, Message("Error deleting news.")) && unchanged(db))
              && (id in old(db.rows) ==>
                    resp == Response(StatusNoContent, NoBody) && db.rows == old(db.rows) - {id} && db.nextId == old(db.nextId))
    ensures resp.status != StatusNotFound
    ensures TableInvariant(old(db.rows)) ==> TableInvariant(db.rows)
  {
    var id := ValidateNewsId(idParam);
    if id.None? {
      return Response(StatusBadRequest, Message(InvalidIdMessage));
    }
    var deleted := NewsService.DeleteNews(db, id.value);
    match deleted
    case Ok(_) => resp := Response(StatusNoContent, NoBody);
    case Err(_) => resp := Response(StatusInternalServerError, Message("Error deleting news."));
  }
}

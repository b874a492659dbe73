/**
 * The repository layer: the `news` table and the five queries the service issues
 * against it. The table is a map from id to row, owned by one `NewsTable` object;
 * the database's autoincrement counter is the field `nextId`.
 */
module NewsRepository {
  import opened Wrappers

  /** A point in time as a JavaScript `Date` holds it: milliseconds since the epoch. */
  type Timestamp = int

  /** The fields a client supplies to create or replace an article (`CreateNewsData`, `AlterNewsData`). */
  datatype NewsData = NewsData(
    title: string,
    text: string,
    author: string,
    publicationDate: Timestamp,
    firstHand: bool)

  /** A stored row: the client's fields plus the generated `id` and `createdAt`. */
  datatype News = News(
    id: int,
    title: string,
    text: string,
    author: string,
    publicationDate: Timestamp,
    firstHand: bool,
    createdAt: Timestamp)

  /** The client-supplied part of a row. */
  function DataOf(n: News): NewsData {
    NewsData(n.title, n.text, n.author, n.publicationDate, n.firstHand)
  }

  /**
   * `formatPublicationDate`: `new Date(date)` on a `Date` keeps its time value. Dates are
   * timestamps here, so the function is the identity; parsing a date string is not modelled.
   */
  function FormatPublicationDate(date: Timestamp): (d: Timestamp)
    ensures d == date
  {
    date
  }

  /**
   * Normalising a date that was already normalised changes nothing. With dates modelled as
   * timestamps this holds by the definition alone: the lemma records that abstraction and
   * needs no proof.
   */
  lemma FormatPublicationDateIdempotent(date: Timestamp)
    ensures FormatPublicationDate(FormatPublicationDate(date)) == FormatPublicationDate(date)
    ensures FormatPublicationDate(date) == date
  {
  }

  /** The row written for `{ ...newsData, publicationDate: formatPublicationDate(...) }` under a new id. */
  function NewRow(id: int, data: NewsData, createdAt: Timestamp): (n: News)
    ensures n.id == id && n.createdAt == createdAt
    ensures DataOf(n) == data
  {
    News(id, data.title, data.text, data.author, FormatPublicationDate(data.publicationDate),
         data.firstHand, createdAt)
  }

  /** The row `current` after a full replacement of its client-supplied fields. */
  function ReplacedRow(current: News, data: NewsData): (n: News)
    ensures n.id == current.id && n.createdAt == current.createdAt
    ensures DataOf(n) == data
  {
    NewRow(current.id, data, current.createdAt)
  }

  /** Every row is stored under its own id. */
  ghost predicate KeyedById(rows: map<int, News>) {
    forall k :: k in rows ==> rows[k].id == k
  }

  /** Newest publication first, the order of `orderBy: { publicationDate: "desc" }`. */
  ghost predicate SortedByDateDesc(s: seq<News>) {
    forall i, j :: 0 <= i < j < |s| ==> s[i].publicationDate >= s[j].publicationDate
  }

  /** The ids of a list of rows, in order. */
  function Ids(s: seq<News>): (ids: seq<int>)
    ensures |ids| == |s|
  {
    if s == [] then [] else [s[0].id] + Ids(s[1..])
  }

  /** Every row of `list` is the one the table stores under its id. */
  ghost predicate AllStored(list: seq<News>, rows: map<int, News>) {
    forall i :: 0 <= i < |list| ==> list[i].id in rows && rows[list[i].id] == list[i]
  }

  /** Inserts `x` into a list kept newest first, ahead of every row that is not newer. */
  function InsertByDate(s: seq<News>, x: News): (r: seq<News>)
    requires SortedByDateDesc(s)
    ensures SortedByDateDesc(r)
    ensures |r| == |s| + 1
    ensures r[0] == x || (s != [] && r[0] == s[0])
  {
    if s == [] || x.publicationDate >= s[0].publicationDate then [x] + s
    else
      var rest := InsertByDate(s[1..], x);
      assert s == [s[0]] + s[1..];
      [s[0]] + rest
  }

  /** Inserting adds exactly the new row: the result is a permutation of the old list plus `x`. */
  lemma {:induction false} InsertByDatePermutes(s: seq<News>, x: News)
    requires SortedByDateDesc(s)
    ensures multiset(InsertByDate(s, x)) == multiset(s) + multiset{x}
  {
    if s != [] && x.publicationDate < s[0].publicationDate {
      InsertByDatePermutes(s[1..], x);
      assert s == [s[0]] + s[1..];
    }
  }

  /** Inserting a row that the table stores keeps every listed row the stored one. */
  lemma {:induction false} AllStoredInsert(s: seq<News>, x: News, rows: map<int, News>)
    requires SortedByDateDesc(s)
    requires AllStored(s, rows) && x.id in rows && rows[x.id] == x
    ensures AllStored(InsertByDate(s, x), rows)
  {
    if s != [] && x.publicationDate < s[0].publicationDate {
      AllStoredInsert(s[1..], x, rows);
    }
  }

  /** Inserting a row adds its id once to the ids of the list. */
  lemma {:induction false} IdsOfInsert(s: seq<News>, x: News)
    requires SortedByDateDesc(s)
    ensures multiset(Ids(InsertByDate(s, x))) == multiset(Ids(s)) + multiset{x.id}
  {
    var r := InsertByDate(s, x);
    if s == [] || x.publicationDate >= s[0].publicationDate {
      assert r[1..] == s;
      assert Ids(r) == [x.id] + Ids(s);
    } else {
      var rest := InsertByDate(s[1..], x);
      IdsOfInsert(s[1..], x);
      assert r[1..] == rest;
      assert Ids(r) == [s[0].id] + Ids(rest);
      assert Ids(s) == [s[0].id] + Ids(s[1..]);
    }
  }

  /** The ids stored in the table that are below `bound`. */
  ghost function IdsBelow(rows: map<int, News>, bound: int): set<int> {
    set k | k in rows && k < bound
  }

  /** Passing one more candidate id adds it to the stored ids below the bound exactly when it is stored. */
  lemma IdsBelowStep(rows: map<int, News>, id: int)
    ensures id in rows ==> multiset(IdsBelow(rows, id + 1)) == multiset(IdsBelow(rows, id)) + multiset{id}
    ensures id !in rows ==> IdsBelow(rows, id + 1) == IdsBelow(rows, id)
  {
    if id in rows {
      assert IdsBelow(rows, id + 1) == IdsBelow(rows, id) + {id};
      assert id !in IdsBelow(rows, id);
    } else {
      assert IdsBelow(rows, id + 1) == IdsBelow(rows, id);
    }
  }

  class NewsTable {
    /** The live rows of the `news` table, by id. */
    var rows: map<int, News>
    /** The id the autoincrement column hands out next. */
    var nextId: int

    ghost predicate Valid()
      reads this
    {
      && nextId >= 1
      && KeyedById(rows)
      && forall k :: k in rows ==> 0 < k < nextId
    }

    /**
     * An empty table whose autoincrement hands out `start` next: 1 for a freshly created
     * database, or wherever the counter stood when `deleteMany` removed every row, since
     * deleting rows does not reset the id sequence.
     */
    constructor (start: int)
      requires start >= 1
      ensures Valid()
      ensures rows == map[] && nextId == start
    {
      rows := map[];
      nextId := start;
    }

    /**
     * `getNews`: every stored row, newest publication first. The list holds each stored id
     * exactly once, with the row stored under it: a permutation of the table.
     */
    method GetNews() returns (list: seq<News>)
      requires Valid()
      ensures SortedByDateDesc(list)
      ensures multiset(Ids(list)) == multiset(rows.Keys)
      ensures AllStored(list, rows)
    {
      list := [];
      for id := 1 to nextId
        invariant SortedByDateDesc(list)
        invariant multiset(Ids(list)) == multiset(IdsBelow(rows, id))
        invariant AllStored(list, rows)
      {
        IdsBelowStep(rows, id);
        if id in rows {
          IdsOfInsert(list, rows[id]);
          AllStoredInsert(list, rows[id], rows);
          list := InsertByDate(list, rows[id]);
        }
      }
      assert IdsBelow(rows, nextId) == rows.Keys;
    }

    /** `getNewsById`: the row with the given id, or `None` (`null`) when there is none. */
    method GetNewsById(newsId: int) returns (r: Option<News>)
      requires Valid()
      ensures r.Some? <==> newsId in rows
      ensures r.Some? ==> r.value == rows[newsId] && r.value.id == newsId
    {
      if newsId in rows {
        r := Some(rows[newsId]);
      } else {
        r := None;
      }
    }

    /** `createNews`: inserts the data under a fresh id; `createdAt` is the database's default timestamp. */
    method CreateNews(data: NewsData, createdAt: Timestamp) returns (created: News)
      requires Valid()
      modifies this
      ensures Valid()
      ensures created.id !in old(rows) && created.id == old(nextId)
      ensures created == NewRow(created.id, data, createdAt)
      ensures rows == old(rows)[created.id := created]
      ensures nextId == old(nextId) + 1
    {
      created := NewRow(nextId, data, createdAt);
      rows := rows[nextId := created];
      nextId := nextId + 1;
    }

    /**
     * `updateNews`: replaces the client-supplied fields of row `newsId`. Prisma throws when
     * no row has that id; here that is `None`, with the table untouched.
     */
    method UpdateNews(newsId: int, data: NewsData) returns (r: Option<News>)
      requires Valid()
      modifies this
      ensures Valid() && nextId == old(nextId)
      ensures r.Some? <==> newsId in old(rows)
      ensures r.Some? ==> r.value == ReplacedRow(old(rows)[newsId], data)
                          && rows == old(rows)[newsId := r.value]
      ensures r.None? ==> rows == old(rows)
    {
      if newsId in rows {
        var updated := ReplacedRow(rows[newsId], data);
        rows := rows[newsId := updated];
        r := Some(updated);
      } else {
        r := None;
      }
    }

    /**
     * `deleteNews`: removes row `newsId` and returns it. Prisma throws when no row has
     * that id; here that is `None`, with the table untouched.
     */
    method DeleteNews(newsId: int) returns (r: Option<News>)
      requires Valid()
      modifies this
      ensures Valid() && nextId == old(nextId)
      ensures r.Some? <==> newsId in old(rows)
      ensures r.Some? ==> r.value == old(rows)[newsId] && rows == old(rows) - {newsId}
      ensures r.None? ==> rows == old(rows)
    {
      if newsId in rows {
        r := Some(rows[newsId]);
        rows := rows - {newsId};
      } else {
        r := None;
      }
    }
  }
}

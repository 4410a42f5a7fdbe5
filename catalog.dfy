/** Sheet records and the search filters `search_books_by_title`,
    `search_books_by_author` and `search_books_by_genre`. */
module Catalog {
  import opened Text

  /** One record of `get_all_records()`, keyed by the header row: Title,
      Author, Year Published, Genre. */
  datatype Record = Record(title: String, author: String, yearPublished: String, genre: String)

  /** One entry of `matching_books`. */
  datatype Book = Book(title: String, author: String, genre: String, year: String)

  /** The column a search looks in. */
  datatype SearchKey = ByTitle | ByAuthor | ByGenre

  function KeyValue(rec: Record, key: SearchKey): String
  {
    match key
    case ByTitle => rec.title
    case ByAuthor => rec.author
    case ByGenre => rec.genre
  }

  function ToBook(rec: Record): Book
  {
    Book(rec.title, rec.author, rec.genre, rec.yearPublished)
  }

  /** `query.lower() in row[column].lower()` */
  predicate Matches(query: String, rec: Record, key: SearchKey)
  {
    Contains(Lower(query), Lower(KeyValue(rec, key)))
  }

  /** The test a search applies to each record. */
  function Matcher(query: String, key: SearchKey): Record -> bool
  {
    rec => Matches(query, rec, key)
  }

  /** The records that pass `keep`, in sheet order, as books. */
  function Filter(keep: Record -> bool, records: seq<Record>): seq<Book>
    decreases |records|
  {
    if records == [] then []
    else (if keep(records[0]) then [ToBook(records[0])] else []) + Filter(keep, records[1..])
  }

  /** Filtering a concatenation filters each part and keeps them in order. */
  lemma {:induction false} FilterAppend(keep: Record -> bool, a: seq<Record>, b: seq<Record>)
    ensures Filter(keep, a + b) == Filter(keep, a) + Filter(keep, b)
    decreases |a|
  {
    if a == [] {
      assert a + b == b;
    } else {
      assert (a + b)[0] == a[0];
      assert (a + b)[1..] == a[1..] + b;
      FilterAppend(keep, a[1..], b);
      assert Filter(keep, a + b) == (if keep(a[0]) then [ToBook(a[0])] else []) + Filter(keep, a[1..] + b);
    }
  }

  /** A book is in the filtered list exactly when some record that passes
      maps to it. */
  lemma {:induction false} FilterMembers(keep: Record -> bool, records: seq<Record>, b: Book)
    ensures b in Filter(keep, records) <==>
      exists j :: 0 <= j < |records| && keep(records[j]) && ToBook(records[j]) == b
    decreases |records|
  {
    if records != [] {
      var tail := records[1..];
      FilterMembers(keep, tail, b);
      if exists j :: 0 <= j < |tail| && keep(tail[j]) && ToBook(tail[j]) == b {
        var j :| 0 <= j < |tail| && keep(tail[j]) && ToBook(tail[j]) == b;
        assert records[j + 1] == tail[j];
      }
      if exists j :: 0 <= j < |records| && keep(records[j]) && ToBook(records[j]) == b {
        var j :| 0 <= j < |records| && keep(records[j]) && ToBook(records[j]) == b;
        if j > 0 {
          assert tail[j - 1] == records[j];
        }
      }
    }
  }

  /** The filter never yields more books than there are records; it keeps
      every record when all pass, and none when none pass. */
  lemma {:induction false} FilterLength(keep: Record -> bool, records: seq<Record>)
    ensures |Filter(keep, records)| <= |records|
    ensures (forall j :: 0 <= j < |records| ==> keep(records[j])) ==> |Filter(keep, records)| == |records|
    ensures (forall j :: 0 <= j < |records| ==> !keep(records[j])) ==> Filter(keep, records) == []
    decreases |records|
  {
    if records != [] {
      var tail := records[1..];
      FilterLength(keep, tail);
      assert forall j :: 0 <= j < |tail| ==> tail[j] == records[j + 1];
    }
  }

  /** Two tests that agree on every record filter alike. */
  lemma {:induction false} FilterSameKeep(k1: Record -> bool, k2: Record -> bool, records: seq<Record>)
    requires forall rec :: k1(rec) == k2(rec)
    ensures Filter(k1, records) == Filter(k2, records)
    decreases |records|
  {
    if records != [] {
      FilterSameKeep(k1, k2, records[1..]);
    }
  }

  /** A book is in a search result exactly when some record whose chosen
      column contains the lower-cased query maps to it. */
  lemma SearchMembers(query: String, records: seq<Record>, key: SearchKey, b: Book)
    ensures b in Filter(Matcher(query, key), records) <==>
      exists j :: 0 <= j < |records| && Matches(query, records[j], key) && ToBook(records[j]) == b
  {
    FilterMembers(Matcher(query, key), records, b);
  }

  /** Two queries with the same lower-case form find the same books. */
  lemma FilterSameMatches(q1: String, q2: String, records: seq<Record>, key: SearchKey)
    requires Lower(q1) == Lower(q2)
    ensures Filter(Matcher(q1, key), records) == Filter(Matcher(q2, key), records)
  {
    FilterSameKeep(Matcher(q1, key), Matcher(q2, key), records);
  }

  /** Only the lower-cased query matters: searching for "DUNE" and for
      "dune" finds the same books. */
  lemma CaseInsensitiveQuery(query: String, records: seq<Record>, key: SearchKey)
    ensures Filter(Matcher(query, key), records) == Filter(Matcher(Lower(query), key), records)
  {
    LowerIdempotent(query);
    FilterSameMatches(query, Lower(query), records, key);
  }

  /** What a search shows: nothing for an empty query, a "no books found"
      message, or the matching books handed to `display_search`. */
  datatype SearchOutcome = EmptyQuery | NoBooksFound | Found(books: seq<Book>)

  /** The loop of the three search functions over the fetched records:
      each record that passes `keep` is appended to `matching_books`. */
  method CollectMatches(keep: Record -> bool, records: seq<Record>) returns (matching: seq<Book>)
    ensures matching == Filter(keep, records)
  {
    matching := [];
    for i := 0 to |records|
      invariant matching == Filter(keep, records[..i])
    {
      var rec := records[i];
      FilterAppend(keep, records[..i], [rec]);
      assert records[..i + 1] == records[..i] + [rec];
      if keep(rec) {
        matching := matching + [ToBook(rec)];
      }
    }
    assert records[..|records|] == records;
  }

  /** The body of `search_books_by_title`, `search_books_by_author` and
      `search_books_by_genre`: an empty query is refused, otherwise the
      matches go to the paging display or to a "no books found" message. */
  method Search(query: String, records: seq<Record>, key: SearchKey) returns (r: SearchOutcome)
    ensures query == "" ==> r == EmptyQuery
    ensures query != "" && Filter(Matcher(query, key), records) == [] ==> r == NoBooksFound
    ensures query != "" && Filter(Matcher(query, key), records) != [] ==> r == Found(Filter(Matcher(query, key), records))
    ensures r.Found? ==> r.books != []
  {
    if query == "" {
      return EmptyQuery;
    }
    var matching := CollectMatches(Matcher(query, key), records);
    if matching == [] {
      return NoBooksFound;
    }
    return Found(matching);
  }
}

/** The row `add_book_isbn` appends for a book found by ISBN, built from
    the `volumeInfo` record of the first search result. */
module Isbn {
  import opened Text

  datatype Option<T> = None | Some(value: T)

  /** The `volumeInfo` keys the row is built from; each may be absent. */
  datatype VolumeInfo = VolumeInfo(
    title: Option<String>,
    authors: Option<seq<String>>,
    publishedDate: Option<String>,
    categories: Option<seq<String>>)

  /** A row to append, or the `KeyError` of a record without a title,
      reported as an invalid ISBN. */
  datatype RowResult = Row(cells: seq<String>) | InvalidIsbn

  const Unknown: String := "Unknown"
  const Separator: String := ", "

  /** `", ".join(book_data.get(key, ["Unknown"]))` */
  function JoinedOrUnknown(names: Option<seq<String>>): String
  {
    Join(Separator, match names case Some(ns) => ns case None => [Unknown])
  }

  /** `book_data.get("publishedDate", "Unknown")[:4]` */
  function YearOf(date: Option<String>): (y: String)
    ensures |y| <= 4
    ensures date.None? ==> y == "Unkn"
    ensures date.Some? ==> |y| <= |date.value| && y == date.value[..|y|] && (|y| == 4 || y == date.value)
  {
    Prefix(match date case Some(d) => d case None => Unknown, 4)
  }

  function IsbnRow(info: VolumeInfo): RowResult
  {
    match info.title
    case None => InvalidIsbn
    case Some(t) => Row([t, JoinedOrUnknown(info.authors), YearOf(info.publishedDate), JoinedOrUnknown(info.categories)])
  }

  /** The row is title, joined authors, year and joined genres, in that
      order; a missing title is the only failure; missing author or category
      lists read "Unknown" and a missing date reads "Unkn"; the year never
      has more than four characters. */
  lemma IsbnRowShape(info: VolumeInfo)
    ensures IsbnRow(info).InvalidIsbn? <==> info.title.None?
    ensures IsbnRow(info).Row? ==>
      var cells := IsbnRow(info).cells;
      |cells| == 4 && cells[0] == info.title.value && |cells[2]| <= 4 &&
      cells[1] == JoinedOrUnknown(info.authors) &&
      cells[2] == YearOf(info.publishedDate) &&
      cells[3] == JoinedOrUnknown(info.categories) &&
      (info.authors.None? ==> cells[1] == "Unknown") &&
      (info.publishedDate.None? ==> cells[2] == "Unkn") &&
      (info.categories.None? ==> cells[3] == "Unknown")
  {
  }

  /** One more author adds ", " and that name to the author cell. */
  lemma {:induction false} AuthorsJoined(names: seq<String>, name: String)
    requires names != []
    ensures JoinedOrUnknown(Some(names + [name])) == JoinedOrUnknown(Some(names)) + ", " + name
  {
    JoinSnoc(Separator, names, name);
  }

  /** A single author or category is stored as given. */
  lemma SingleName(name: String)
    ensures JoinedOrUnknown(Some([name])) == name
  {
  }

  /** The row is not checked against the manual-entry rules: a record
      without a date gives the year "Unkn", which is not a digit string. */
  lemma IsbnYearNotDigits(info: VolumeInfo)
    requires info.title.Some? && info.publishedDate.None?
    ensures IsbnRow(info).Row? && !IsDigits(IsbnRow(info).cells[2])
  {
    assert YearOf(info.publishedDate)[0] == 'U';
  }
}

/** Pagination of the catalogue: the page arithmetic shared by
    `display_search` and `display_books`, and the navigation loop of each.
    Every answer to a navigation prompt is the next element of a sequence;
    when the sequence runs out the session simply stops, because the program
    would block waiting at the prompt. */
module Paging {
  import opened Text
  import opened Catalog

  /** `page_size`; the arithmetic below writes it as the literal 6. */
  const PageSize: nat := 6

  /** `(n + page_size - 1) // page_size`: the least number of pages of six
      that hold `n` items. */
  function PageCount(n: nat): (r: nat)
    ensures 6 * r >= n
    ensures r > 0 ==> 6 * (r - 1) < n
  {
    (n + 6 - 1) / 6
  }

  /** `xs[start_index:end_index]` for the 0-based page `p`. */
  function Page<T>(xs: seq<T>, p: nat): (r: seq<T>)
    requires p < PageCount(|xs|)
    ensures 0 < |r| <= PageSize
  {
    var start := 6 * p;
    var end := if start + 6 < |xs| then start + 6 else |xs|;
    xs[start..end]
  }

  /** The pages from `p` on, in order. */
  function PagesFrom<T>(xs: seq<T>, p: nat): seq<seq<T>>
    decreases PageCount(|xs|) - p
  {
    if p >= PageCount(|xs|) then [] else [Page(xs, p)] + PagesFrom(xs, p + 1)
  }

  function Flatten<T>(pages: seq<seq<T>>): seq<T>
  {
    if pages == [] then [] else pages[0] + Flatten(pages[1..])
  }

  lemma FlattenCons<T>(page: seq<T>, rest: seq<seq<T>>)
    ensures Flatten([page] + rest) == page + Flatten(rest)
  {
    assert ([page] + rest)[1..] == rest;
  }

  /** The pages from `p` on concatenate to the items from the start of
      page `p`. */
  lemma {:induction false} PagesFromCover<T>(xs: seq<T>, p: nat)
    requires p <= PageCount(|xs|)
    ensures 6 * p <= |xs| ==> Flatten(PagesFrom(xs, p)) == xs[6 * p..]
    ensures 6 * p > |xs| ==> Flatten(PagesFrom(xs, p)) == []
    decreases PageCount(|xs|) - p
  {
    if p < PageCount(|xs|) {
      var page := Page(xs, p);
      var rest := PagesFrom(xs, p + 1);
      assert PagesFrom(xs, p) == [page] + rest;
      FlattenCons(page, rest);
      PagesFromCover(xs, p + 1);
      var start := 6 * p;
      if start + 6 < |xs| {
        assert page == xs[start..start + 6];
        assert Flatten(rest) == xs[start + 6..];
        assert xs[start..] == page + xs[start + 6..];
      } else {
        assert page == xs[start..];
        assert Flatten(rest) == [];
      }
    } else {
      assert PagesFrom(xs, p) == [];
    }
  }

  /** The pages, in order, are the whole list cut into `PageCount` pieces
      of at most six items. */
  lemma AllPages<T>(xs: seq<T>)
    ensures |PagesFrom(xs, 0)| == PageCount(|xs|)
    ensures Flatten(PagesFrom(xs, 0)) == xs
    ensures forall j :: 0 <= j < |PagesFrom(xs, 0)| ==> 0 < |PagesFrom(xs, 0)[j]| <= PageSize
  {
    PagesFromCover(xs, 0);
    PagesFromShape(xs, 0);
  }

  lemma {:induction false} PagesFromShape<T>(xs: seq<T>, p: nat)
    ensures |PagesFrom(xs, p)| == if p < PageCount(|xs|) then PageCount(|xs|) - p else 0
    ensures forall j :: 0 <= j < |PagesFrom(xs, p)| ==> PagesFrom(xs, p)[j] == Page(xs, p + j)
    decreases PageCount(|xs|) - p
  {
    if p < PageCount(|xs|) {
      var rest := PagesFrom(xs, p + 1);
      assert PagesFrom(xs, p) == [Page(xs, p)] + rest;
      PagesFromShape(xs, p + 1);
      forall j | 0 < j < |PagesFrom(xs, p)|
        ensures PagesFrom(xs, p)[j] == Page(xs, p + j)
      {
        assert PagesFrom(xs, p)[j] == rest[j - 1];
        assert rest[j - 1] == Page(xs, (p + 1) + (j - 1));
      }
    } else {
      assert PagesFrom(xs, p) == [];
    }
  }

  /** The navigation choices of `display_search`. */
  datatype Choice = NextPage | PreviousPage | Quit

  /** `list.remove`: drops the first occurrence. */
  function Remove(cs: seq<Choice>, c: Choice): seq<Choice>
  {
    if cs == [] then []
    else if cs[0] == c then cs[1..]
    else [cs[0]] + Remove(cs[1..], c)
  }

  /** The menu under page `p` of `count`: "Previous page" is dropped on the
      first page and "Next page" on the last. */
  function Offered(p: int, count: int): (r: seq<Choice>)
    ensures |r| > 0 && Quit in r
    ensures PreviousPage in r <==> p != 0
    ensures NextPage in r <==> p != count - 1
  {
    var all := [NextPage, PreviousPage, Quit];
    var noPrevious := if p == 0 then Remove(all, PreviousPage) else all;
    if p == count - 1 then Remove(noPrevious, NextPage) else noPrevious
  }

  /** The prompt's answer: the choice under the cursor. The list prompt does
      not wrap around, so a cursor past the end rests on the last choice. */
  function Select(choices: seq<Choice>, cursor: nat): (c: Choice)
    requires |choices| > 0
    ensures c in choices
  {
    if cursor < |choices| then choices[cursor] else choices[|choices| - 1]
  }

  /** The answer to the prompt under page `p` of `count`: a move never
      leaves the range of pages. */
  function Answer(p: nat, count: nat, cursor: nat): (c: Choice)
    requires p < count
    ensures c == NextPage ==> p + 1 < count
    ensures c == PreviousPage ==> p > 0
  {
    Select(Offered(p, count), cursor)
  }

  /** The pages a session visits and whether it ended by a Quit. */
  datatype Session = Session(visited: seq<nat>, quit: bool)

  function Then(p: nat, s: Session): Session
  {
    Session([p] + s.visited, s.quit)
  }

  /** The pages already visited, followed by the rest of a session. */
  function After(visited: seq<nat>, s: Session): Session
  {
    Session(visited + s.visited, s.quit)
  }

  lemma AfterThen(visited: seq<nat>, p: nat, s: Session)
    ensures After(visited, Then(p, s)) == After(visited + [p], s)
  {
    assert visited + ([p] + s.visited) == (visited + [p]) + s.visited;
  }

  /** `display_search` on page `p` of `count`, answering the prompts with
      `cursors[i..]`. */
  function SearchSession(count: nat, p: nat, cursors: seq<nat>, i: nat): (s: Session)
    requires p < count && i <= |cursors|
    ensures |s.visited| > 0 && s.visited[0] == p
    decreases |cursors| - i
  {
    if i == |cursors| then Session([p], false)
    else
      var c := Answer(p, count, cursors[i]);
      if c == NextPage then Then(p, SearchSession(count, p + 1, cursors, i + 1))
      else if c == PreviousPage then Then(p, SearchSession(count, p - 1, cursors, i + 1))
      else Session([p], true)
  }

  /** Every page the session visits is in `[0, count - 1]`. */
  lemma {:induction false} SearchSessionInRange(count: nat, p: nat, cursors: seq<nat>, i: nat)
    requires p < count && i <= |cursors|
    ensures forall j :: 0 <= j < |SearchSession(count, p, cursors, i).visited| ==>
      SearchSession(count, p, cursors, i).visited[j] < count
    decreases |cursors| - i
  {
    if i < |cursors| {
      var c := Answer(p, count, cursors[i]);
      if c == NextPage {
        SearchSessionInRange(count, p + 1, cursors, i + 1);
      } else if c == PreviousPage {
        SearchSessionInRange(count, p - 1, cursors, i + 1);
      }
    }
  }

  /** Each answer moves `display_search` by exactly one page, and a session
      that ends with Quit used one answer per move plus the Quit. */
  lemma {:induction false} SearchMovesByOne(count: nat, p: nat, cursors: seq<nat>, i: nat)
    requires p < count && i <= |cursors|
    ensures var s := SearchSession(count, p, cursors, i);
      forall j :: 0 < j < |s.visited| ==> s.visited[j] == s.visited[j - 1] + 1 || s.visited[j] + 1 == s.visited[j - 1]
    ensures var s := SearchSession(count, p, cursors, i);
      |s.visited| <= |cursors| - i + 1 && (s.quit ==> |s.visited| <= |cursors| - i)
    decreases |cursors| - i
  {
    if i < |cursors| {
      var c := Answer(p, count, cursors[i]);
      if c == NextPage {
        SearchMovesByOne(count, p + 1, cursors, i + 1);
      } else if c == PreviousPage {
        SearchMovesByOne(count, p - 1, cursors, i + 1);
      }
    }
  }

  /** `shown` holds exactly the pages numbered in `visited`, in order. */
  ghost predicate ShowsPages<T>(xs: seq<T>, shown: seq<seq<T>>, visited: seq<nat>)
  {
    |shown| == |visited| &&
    forall j :: 0 <= j < |visited| ==> visited[j] < PageCount(|xs|) && shown[j] == Page(xs, visited[j])
  }

  lemma ShowsPagesSnoc<T>(xs: seq<T>, shown: seq<seq<T>>, visited: seq<nat>, p: nat)
    requires ShowsPages(xs, shown, visited) && p < PageCount(|xs|)
    ensures ShowsPages(xs, shown + [Page(xs, p)], visited + [p])
  {
  }

  lemma ShownPageSizes<T>(xs: seq<T>, shown: seq<seq<T>>, visited: seq<nat>)
    requires ShowsPages(xs, shown, visited)
    ensures forall j :: 0 <= j < |shown| ==> 0 < |shown[j]| <= PageSize
  {
    forall j | 0 <= j < |shown|
      ensures 0 < |shown[j]| <= PageSize
    {
      assert shown[j] == Page(xs, visited[j]);
    }
  }

  /** The `while True` loop of `display_search`; callers only pass a
      non-empty list. `shown` is the sequence of pages printed. */
  method DisplaySearch<T>(xs: seq<T>, cursors: seq<nat>) returns (shown: seq<seq<T>>, quit: bool)
    requires |xs| > 0
    ensures var s := SearchSession(PageCount(|xs|), 0, cursors, 0);
      quit == s.quit && ShowsPages(xs, shown, s.visited)
    ensures forall j :: 0 <= j < |shown| ==> 0 < |shown[j]| <= PageSize
  {
    var count := PageCount(|xs|);
    var page: nat := 0;
    var i := 0;
    shown := [];
    ghost var visited: seq<nat> := [];
    while true
      invariant page < count && i <= |cursors| && ShowsPages(xs, shown, visited)
      invariant SearchSession(count, 0, cursors, 0) == After(visited, SearchSession(count, page, cursors, i))
      decreases |cursors| - i
    {
      ShowsPagesSnoc(xs, shown, visited, page);
      ghost var before := visited;
      shown := shown + [Page(xs, page)];
      visited := visited + [page];
      ShownPageSizes(xs, shown, visited);
      if i == |cursors| {
        return shown, false;
      }
      var choice := Answer(page, count, cursors[i]);
      if choice == Quit {
        return shown, true;
      }
      var next: nat := if choice == NextPage then page + 1 else page - 1;
      AfterThen(before, page, SearchSession(count, next, cursors, i + 1));
      page := next;
      i := i + 1;
    }
  }

  /** The navigation actions of `display_books`, always all offered. */
  datatype Action = Next | Previous | Back

  /** `(len(records) + 5) // 6` */
  function InventoryPageCount(n: nat): nat
  {
    (n + 5) / 6
  }

  /** `data[start:end]` with `start = (page - 1) * 6` and `end = start + 6`;
      Python clamps the slice at the end of the list. */
  function InventoryPage<T>(data: seq<T>, page: nat): (r: seq<T>)
    requires page >= 1
    ensures |r| <= PageSize
    ensures page <= InventoryPageCount(|data|) ==> |r| > 0
  {
    var start := 6 * (page - 1);
    var end := start + 6;
    if start >= |data| then []
    else if end > |data| then data[start..]
    else data[start..end]
  }

  /** The 1-based pages of `display_books` are the pages of
      `display_search` shifted by one, and both count pages alike. */
  lemma InventoryPageIsPage<T>(data: seq<T>, page: nat)
    requires 1 <= page <= InventoryPageCount(|data|)
    ensures InventoryPageCount(|data|) == PageCount(|data|)
    ensures InventoryPage(data, page) == Page(data, page - 1)
  {
  }

  /** One answer in `display_books`: Next and Previous are clamped to the
      first and last page. */
  function InventoryStep(page: nat, total: nat, a: Action): (r: nat)
    requires 1 <= page <= total
    requires a != Back
    ensures 1 <= r <= total
    ensures a == Next ==> r == (if page < total then page + 1 else total)
    ensures a == Previous ==> r == (if page > 1 then page - 1 else 1)
  {
    if a == Next then (if page < total then page + 1 else page)
    else (if page > 1 then page - 1 else page)
  }

  /** `display_books` on page `page` of `total`, answering the prompts with
      `actions[i..]`. */
  function InventorySession(total: nat, page: nat, actions: seq<Action>, i: nat): (s: Session)
    requires 1 <= page <= total && i <= |actions|
    ensures |s.visited| > 0 && s.visited[0] == page
    decreases |actions| - i
  {
    if i == |actions| then Session([page], false)
    else if actions[i] == Back then Session([page], true)
    else Then(page, InventorySession(total, InventoryStep(page, total, actions[i]), actions, i + 1))
  }

  /** Every page the session visits is in `[1, total]`. */
  lemma {:induction false} InventorySessionInRange(total: nat, page: nat, actions: seq<Action>, i: nat)
    requires 1 <= page <= total && i <= |actions|
    ensures forall j :: 0 <= j < |InventorySession(total, page, actions, i).visited| ==>
      1 <= InventorySession(total, page, actions, i).visited[j] <= total
    decreases |actions| - i
  {
    if i < |actions| && actions[i] != Back {
      InventorySessionInRange(total, InventoryStep(page, total, actions[i]), actions, i + 1);
    }
  }

  /** A row of the inventory table: Title, Author, Year, Genre. */
  function InventoryRow(rec: Record): seq<String>
  {
    [rec.title, rec.author, rec.yearPublished, rec.genre]
  }

  /** The table `display_books` pages through, one row per record. */
  function InventoryTable(records: seq<Record>): (data: seq<seq<String>>)
    ensures |data| == |records|
  {
    seq(|records|, k requires 0 <= k < |records| => InventoryRow(records[k]))
  }

  /** `shown` holds exactly the 1-based pages numbered in `visited`, in
      order, each within `[1, total]`. */
  ghost predicate ShowsInventory<T>(data: seq<T>, total: nat, shown: seq<seq<T>>, visited: seq<nat>)
  {
    |shown| == |visited| &&
    forall j :: 0 <= j < |visited| ==> 1 <= visited[j] <= total && shown[j] == InventoryPage(data, visited[j])
  }

  lemma ShowsInventorySnoc<T>(data: seq<T>, total: nat, shown: seq<seq<T>>, visited: seq<nat>, p: nat)
    requires ShowsInventory(data, total, shown, visited) && 1 <= p <= total
    ensures ShowsInventory(data, total, shown + [InventoryPage(data, p)], visited + [p])
  {
  }

  /** The page loop of `display_books`, for one fetch of the records. With
      no records the page loop does not run at all. */
  method DisplayBooks(records: seq<Record>, actions: seq<Action>) returns (shown: seq<seq<seq<String>>>, back: bool)
    ensures |records| == 0 ==> shown == [] && !back
    ensures |records| > 0 ==>
      var s := InventorySession(InventoryPageCount(|records|), 1, actions, 0);
      back == s.quit && ShowsInventory(InventoryTable(records), InventoryPageCount(|records|), shown, s.visited)
    ensures forall j :: 0 <= j < |shown| ==> 0 < |shown[j]| <= PageSize
  {
    var data := InventoryTable(records);
    var total := InventoryPageCount(|records|);
    var page: nat := 1;
    var i := 0;
    shown := [];
    ghost var visited: seq<nat> := [];
    if total == 0 {
      return [], false;
    }
    while page <= total
      invariant 1 <= page <= total && i <= |actions| && ShowsInventory(data, total, shown, visited)
      invariant InventorySession(total, 1, actions, 0) == After(visited, InventorySession(total, page, actions, i))
      decreases |actions| - i
    {
      ShowsInventorySnoc(data, total, shown, visited, page);
      ghost var before := visited;
      shown := shown + [InventoryPage(data, page)];
      visited := visited + [page];
      if i == |actions| {
        return shown, false;
      }
      var action := actions[i];
      if action == Back {
        return shown, true;
      }
      var next := InventoryStep(page, total, action);
      AfterThen(before, page, InventorySession(total, next, actions, i + 1));
      page := next;
      i := i + 1;
    }
    assert false;
  }
}

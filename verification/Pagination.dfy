/** Fetching a list page by page until a page is short, fails or enough pages were read. */
module Pagination {
  import opened Wrappers

  /** The backend never returns more items on a page. */
  const MAX_SIZE: nat := 100

  /**
   The answers with status 200 differ in their items. Page has a list. Text has a JSON
   text, whose characters are appended one by one, but whose length counts a character
   outside the basic plane twice. NoList has something else that may have a length (if
   it is a number) but cannot be appended. BadBody has no items to take the length of,
   or is not JSON at all.
   */
  datatype Response<T> =
    | HttpError
    | BadBody
    | NoList(size: Option<int>)
    | Text(units: nat, characters: seq<T>)
    | Page(items: seq<T>)

  predicate ValidResponse<T>(response: Response<T>) {
    response.Text? ==> |response.characters| <= response.units
  }

  /** The count is None when it is not a number. */
  datatype PageResult = PageResult(page: nat, success: bool, itemCount: Option<int>)

  datatype Fetched<T> = Fetched(items: seq<T>, pageResults: seq<PageResult>, totalItems: nat)

  /** Math.ceil(targetCount / MAX_SIZE) */
  function PagesNeeded(targetCount: nat): nat {
    (targetCount + MAX_SIZE - 1) / MAX_SIZE
  }

  /** body.items.length, where a body was read. */
  function Length<T>(response: Response<T>): Option<int> {
    match response
    case NoList(size) => size
    case Text(units, _) => Some(units)
    case Page(items) => Some(|items|)
    case _ => Some(0)
  }

  /** What is appended. */
  function ItemsOf<T>(response: Response<T>): seq<T> {
    match response
    case Text(_, characters) => characters
    case Page(items) => items
    case _ => []
  }

  /** Reading goes on after a page like this. */
  predicate IsFull<T>(response: Response<T>) {
    (response.Page? || response.Text?) && Length(response).value >= MAX_SIZE
  }

  function ResultOf<T>(response: Response<T>, page: nat): PageResult {
    PageResult(page, !response.HttpError?, Length(response))
  }

  /** Pages are numbered from 1. */
  function ItemsThrough<T>(server: nat -> Response<T>, pages: nat): seq<T> {
    if pages == 0 then [] else ItemsThrough(server, pages - 1) + ItemsOf(server(pages))
  }

  function ResultsThrough<T>(server: nat -> Response<T>, pages: nat): (r: seq<PageResult>)
    ensures |r| == pages
  {
    if pages == 0 then [] else ResultsThrough(server, pages - 1) + [ResultOf(server(pages), pages)]
  }

  // ----- Which pages are read -----

  /** From a page on, up to the last one needed or the first that is not full. */
  function PagesReadFrom<T>(server: nat -> Response<T>, page: nat, needed: nat): nat
    requires page <= needed + 1
    decreases needed + 1 - page
  {
    if page == needed + 1 then needed
    else if IsFull(server(page)) then PagesReadFrom(server, page + 1, needed)
    else page
  }

  /** How many pages are read of a server when a number of pages is needed. */
  function PagesRead<T>(server: nat -> Response<T>, needed: nat): nat {
    PagesReadFrom(server, 1, needed)
  }

  ghost predicate AllFull<T>(server: nat -> Response<T>, pages: int) {
    forall page :: 1 <= page <= pages ==> IsFull(server(page))
  }

  lemma {:induction false} ReadFromIsFirstNotFull<T>(server: nat -> Response<T>, page: nat, needed: nat)
    requires 1 <= page <= needed + 1 && AllFull(server, page - 1)
    ensures var pages := PagesReadFrom(server, page, needed);
            pages <= needed && AllFull(server, pages - 1) && (pages < needed ==> pages > 0 && !IsFull(server(pages)))
    decreases needed + 1 - page
  {
    if page <= needed && IsFull(server(page)) {
      ReadFromIsFirstNotFull(server, page + 1, needed);
    }
  }

  /** All pages but the last are full, and the last is not unless it is the last one needed. */
  lemma PagesReadIff<T>(server: nat -> Response<T>, needed: nat, pages: nat)
    ensures pages == PagesRead(server, needed)
            <==> && pages <= needed && AllFull(server, pages - 1)
                 && (pages < needed ==> pages > 0 && !IsFull(server(pages)))
  {
    ReadFromIsFirstNotFull(server, 1, needed);
    var read := PagesRead(server, needed);
    if pages < read {
      assert pages > 0 ==> IsFull(server(pages));
    } else if read < pages <= needed {
      assert !IsFull(server(read)) && 1 <= read <= pages - 1;
    }
  }

  /** The least number of pages of MAX_SIZE items that holds the target. */
  lemma PagesNeededIsLeast(targetCount: nat, pages: nat)
    ensures targetCount <= PagesNeeded(targetCount) * MAX_SIZE
    ensures targetCount <= pages * MAX_SIZE ==> PagesNeeded(targetCount) <= pages
  {
  }

  /** One result for each page read, in order: whether the status was 200, and the length of its items. */
  lemma {:induction false} ResultAt<T>(server: nat -> Response<T>, pages: nat, page: nat)
    requires 1 <= page <= pages
    ensures var result := ResultsThrough(server, pages)[page - 1];
            && result.page == page
            && (result.success <==> server(page) != HttpError)
            && match server(page)
               case Page(items) => result.itemCount == Some(|items|)
               case Text(units, _) => result.itemCount == Some(units)
               case NoList(size) => result.itemCount == size
               case _ => result.itemCount == Some(0)
  {
    if page < pages {
      ResultAt(server, pages - 1, page);
    }
  }

  /** Whatever the server answers. */
  method FetchPaginated<T>(server: nat -> Response<T>, targetCount: nat) returns (r: Fetched<T>)
    ensures var pages := PagesRead(server, PagesNeeded(targetCount));
            && r.pageResults == ResultsThrough(server, pages)
            && r.items == ItemsThrough(server, pages)
            && r.totalItems == |r.items|
  {
    var items: seq<T> := [];
    var pageResults: seq<PageResult> := [];
    var pagesNeeded := PagesNeeded(targetCount);
    ghost var pages := 0;
    for page := 1 to pagesNeeded + 1
      invariant pages == page - 1
      invariant pageResults == ResultsThrough(server, pages)
      invariant items == ItemsThrough(server, pages)
      invariant AllFull(server, pages)
    {
      pages := page;
      var res := server(page);
      var pageResult := PageResult(page, !res.HttpError?, Some(0));
      if res.HttpError? {
        pageResults := pageResults + [pageResult];
        break;
      }
      if res.BadBody? {
        pageResults := pageResults + [pageResult];
        break;
      }
      pageResult := pageResult.(itemCount := Length(res));
      if res.NoList? {
        pageResults := pageResults + [pageResult];
        break;
      }
      items := items + ItemsOf(res);
      pageResults := pageResults + [pageResult];
      if Length(res).value < MAX_SIZE {
        break;
      }
    }
    PagesReadIff(server, pagesNeeded, pages);
    r := Fetched(items, pageResults, |items|);
  }

  // ----- Counts and total -----

  function Plus(a: Option<int>, b: Option<int>): Option<int> {
    if a.None? || b.None? then None else Some(a.value + b.value)
  }

  /** The sum of the counts, if all of them are numbers. */
  function TotalCount(results: seq<PageResult>): Option<int> {
    if results == [] then Some(0)
    else Plus(TotalCount(results[..|results| - 1]), results[|results| - 1].itemCount)
  }

  /** How many more items a page counts than it has. */
  function Excess<T>(response: Response<T>): Option<int> {
    Plus(Length(response), Some(-|ItemsOf(response)|))
  }

  function TotalExcess<T>(server: nat -> Response<T>, pages: nat): Option<int> {
    if pages == 0 then Some(0) else Plus(TotalExcess(server, pages - 1), Excess(server(pages)))
  }

  lemma {:induction false} CountsAreItemsAndExcess<T>(server: nat -> Response<T>, pages: nat)
    ensures TotalCount(ResultsThrough(server, pages))
            == Plus(Some(|ItemsThrough(server, pages)|), TotalExcess(server, pages))
  {
    if pages > 0 {
      CountsAreItemsAndExcess(server, pages - 1);
      var r := ResultsThrough(server, pages);
      assert r[..|r| - 1] == ResultsThrough(server, pages - 1);
    }
  }

  lemma {:induction false} FullPagesHaveExcess<T>(server: nat -> Response<T>, pages: nat)
    requires AllFull(server, pages) && forall p :: ValidResponse(server(p))
    ensures TotalExcess(server, pages).Some? && TotalExcess(server, pages).value >= 0
    ensures TotalExcess(server, pages) == Some(0)
            <==> forall p :: 1 <= p <= pages ==> Excess(server(p)) == Some(0)
  {
    if pages > 0 {
      FullPagesHaveExcess(server, pages - 1);
      assert IsFull(server(pages)) && ValidResponse(server(pages));
    }
  }

  /** The page gives a negative length for something that is no list. */
  predicate IsNegative<T>(response: Response<T>) {
    response.NoList? && response.size.Some? && response.size.value < 0
  }

  lemma ExcessIsNotNegative<T>(response: Response<T>)
    requires ValidResponse(response) && !IsNegative(response)
    ensures Excess(response).Some? ==> Excess(response).value >= 0
  {
  }

  lemma ReadPagesHaveExcess<T>(server: nat -> Response<T>, pages: nat)
    requires AllFull(server, pages - 1) && forall p :: ValidResponse(server(p)) && !IsNegative(server(p))
    ensures TotalExcess(server, pages) == Some(0) <==> forall p :: 1 <= p <= pages ==> Excess(server(p)) == Some(0)
  {
    if pages > 0 {
      FullPagesHaveExcess(server, pages - 1);
      ExcessIsNotNegative(server(pages));
      assert TotalExcess(server, pages) == Plus(TotalExcess(server, pages - 1), Excess(server(pages)));
    }
  }

  /**
   For every server that gives no negative length: the counts of a fetch sum to its
   total exactly when no page that is read counts more items than it has, as a page
   does that is no list but has a length, or a text with characters outside the basic
   plane.
   */
  lemma CountsSumIff<T>(server: nat -> Response<T>, needed: nat)
    requires forall p :: ValidResponse(server(p)) && !IsNegative(server(p))
    ensures var pages := PagesRead(server, needed);
            TotalCount(ResultsThrough(server, pages)) == Some(|ItemsThrough(server, pages)|)
            <==> forall p :: 1 <= p <= pages ==> Excess(server(p)) == Some(0)
  {
    var pages := PagesRead(server, needed);
    PagesReadIff(server, needed, pages);
    CountsAreItemsAndExcess(server, pages);
    ReadPagesHaveExcess(server, pages);
  }

  /** {"items": {"length": 5}} counts five items and has none. */
  lemma LengthIsCounted(server: nat -> Response<int>, needed: nat)
    requires needed > 0 && server(1) == NoList(Some(5))
    ensures var pages := PagesRead(server, needed);
            TotalCount(ResultsThrough(server, pages)) == Some(5) && ItemsThrough(server, pages) == []
  {
    PagesReadIff(server, needed, 1);
    CountsAreItemsAndExcess(server, 1);
  }

  // ----- An honest server -----

  function Min(a: nat, b: nat): nat {
    if a < b then a else b
  }

  /** How many items the first pages hold. */
  function EndOf(pages: nat, total: nat): (end: nat)
    ensures end <= total
  {
    Min(pages * MAX_SIZE, total)
  }

  /** The slices of one sequence, MAX_SIZE at a time. */
  function Honest<T>(all: seq<T>): nat -> Response<T> {
    (page: nat) => if page == 0 then BadBody else Page(Slice(all, page))
  }

  function Slice<T>(all: seq<T>, page: nat): seq<T>
    requires page > 0
  {
    all[EndOf(page - 1, |all|)..EndOf(page, |all|)]
  }

  lemma AppendSlice<T>(all: seq<T>, from: nat, to: nat)
    requires from <= to <= |all|
    ensures all[..from] + all[from..to] == all[..to]
  {
  }

  lemma {:induction false} HonestThrough<T>(all: seq<T>, pages: nat)
    ensures ItemsThrough(Honest(all), pages) == all[..EndOf(pages, |all|)]
  {
    if pages > 0 {
      HonestThrough(all, pages - 1);
      AppendSlice(all, EndOf(pages - 1, |all|), EndOf(pages, |all|));
      assert ItemsOf(Honest(all)(pages)) == Slice(all, pages);
    }
  }

  /** An honest server's pages are full exactly while they end within the sequence. */
  lemma HonestIsFullIff<T>(all: seq<T>, page: nat)
    requires page > 0
    ensures IsFull(Honest(all)(page)) <==> page * MAX_SIZE <= |all|
  {
  }

  /** From an honest server come the first items, as many as whole pages cover the target, or all there are. */
  lemma HonestFetchIsPrefix<T>(all: seq<T>, targetCount: nat, pages: nat)
    requires pages == PagesRead(Honest(all), PagesNeeded(targetCount))
    ensures ItemsThrough(Honest(all), pages) == all[..Min(PagesNeeded(targetCount) * MAX_SIZE, |all|)]
  {
    PagesReadIff(Honest(all), PagesNeeded(targetCount), pages);
    HonestThrough(all, pages);
    if pages < PagesNeeded(targetCount) {
      HonestIsFullIff(all, pages);
      assert |all| < pages * MAX_SIZE <= PagesNeeded(targetCount) * MAX_SIZE;
    }
  }

  method FetchFromHonest<T>(all: seq<T>, targetCount: nat) returns (items: seq<T>)
    ensures items == all[..Min(PagesNeeded(targetCount) * MAX_SIZE, |all|)]
    ensures targetCount <= |all| ==> targetCount <= |items|
  {
    var r := FetchPaginated(Honest(all), targetCount);
    HonestFetchIsPrefix(all, targetCount, |r.pageResults|);
    items := r.items;
  }
}

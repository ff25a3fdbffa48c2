/**
 * The state of the browsing screen (App.tsx) and the handlers that update it.
 * Each React state hook is a field; each handler or effect body is a method.
 * Catalogue requests are function parameters: `None` stands for a rejected
 * request, after which the rest of the handler does not run.
 */
module App {
  import opened Wrappers
  import opened AnimeModel
  import opened AnimeList
  import opened Watchlist

  /** The arguments of one `fetchAnime` call. */
  datatype Query = Query(page: int, search: string, genre: string, sort: string)

  /** A page of results as the catalogue returns it. */
  datatype Page = Page(anime: seq<Anime>, hasNextPage: bool)

  /** The argument of `handleFilterChange`: absent fields are `None`. */
  datatype FilterChange = FilterChange(search: Option<string>, genre: Option<string>, sort: Option<string>)

  /**
   * The `IntersectionObserver` held by `observer.current`: the `hasNextPage`
   * its callback closed over when it was created, and whether it was given a
   * node to observe.
   */
  datatype Observer = Observer(capturedHasNextPage: bool, observing: bool)

  /** The sort order a fresh screen starts with. */
  const DefaultSort: string := "POPULARITY_DESC"

  /** The new value of one filter field: set only when provided and different. */
  function ApplyFilter(current: string, provided: Option<string>): (r: string)
    ensures provided.None? ==> r == current
    ensures provided.Some? ==> r == provided.value
  {
    if provided.Some? && provided.value != current then provided.value else current
  }

  class AppState {
    var animeList: seq<Anime>
    var isLoading: bool
    var page: int
    var hasNextPage: bool
    var search: string
    var genre: string
    var sort: string
    var showWatchlistOnly: bool
    var watchlist: seq<int>
    var observer: Option<Observer>

    /** The page cursor never drops below the first page. */
    ghost predicate Valid()
      reads this
    {
      page >= 1
    }

    /** The initial state; `saved` is the watchlist read back from storage, if any. */
    constructor (saved: Option<seq<int>>)
      ensures Valid()
      ensures animeList == [] && isLoading && page == 1 && hasNextPage
      ensures search == "" && genre == "" && sort == DefaultSort
      ensures !showWatchlistOnly && observer == None
      ensures watchlist == if saved.Some? then saved.value else []
    {
      animeList := [];
      isLoading := true;
      page := 1;
      hasNextPage := true;
      search := "";
      genre := "";
      sort := DefaultSort;
      showWatchlistOnly := false;
      watchlist := if saved.Some? then saved.value else [];
      observer := None;
    }

    /**
     * `lastAnimeElementRef`: while loading or in watchlist mode nothing
     * happens; otherwise the old observer is replaced by a new one closing
     * over the current `hasNextPage`, observing `node` when there is one.
     */
    method AttachObserver(nodePresent: bool) returns (attached: bool)
      modifies this`observer
      ensures attached <==> !isLoading && !showWatchlistOnly
      ensures attached ==> observer == Some(Observer(hasNextPage, nodePresent))
      ensures !attached ==> observer == old(observer)
    {
      if isLoading || showWatchlistOnly {
        return false;
      }
      observer := Some(Observer(hasNextPage, nodePresent));
      attached := true;
    }

    /** The observer callback: the page advances by one when the sentinel intersects and the captured `hasNextPage` holds. */
    method OnIntersection(isIntersecting: bool)
      requires Valid()
      modifies this`page
      ensures Valid()
      ensures page == old(page) + 1 <==>
        observer.Some? && observer.value.observing && isIntersecting && observer.value.capturedHasNextPage
      ensures page == old(page) || page == old(page) + 1
    {
      if observer.Some? && observer.value.observing && isIntersecting && observer.value.capturedHasNextPage {
        page := page + 1;
      }
    }

    /**
     * `loadAnime(reset)`: in watchlist mode nothing happens and no request is
     * sent. Otherwise the query asks for page 1 on a reset and the current
     * page otherwise; its results are merged and de-duplicated, and a reset
     * puts the cursor back on page 1.
     */
    method LoadAnime(reset: bool, fetchAnime: Query -> Option<Page>) returns (sent: Option<Query>)
      requires Valid()
      modifies this`isLoading, this`animeList, this`hasNextPage, this`page
      ensures Valid()
      ensures old(showWatchlistOnly) ==> sent == None && unchanged(this)
      ensures !old(showWatchlistOnly) ==>
        sent == Some(Query(if reset then 1 else old(page), search, genre, sort))
      ensures sent.Some? && fetchAnime(sent.value).None? ==>
        isLoading && animeList == old(animeList) && hasNextPage == old(hasNextPage) && page == old(page)
      ensures sent.Some? && fetchAnime(sent.value).Some? ==>
        var response := fetchAnime(sent.value).value;
        && animeList == Dedup(Merge(old(animeList), response.anime, reset))
        && UniqueIds(animeList)
        && Ids(animeList) == (if reset then {} else Ids(old(animeList))) + Ids(response.anime)
        && (!reset && UniqueIds(old(animeList)) ==> |animeList| >= |old(animeList)| && animeList[..|old(animeList)|] == old(animeList))
        && hasNextPage == response.hasNextPage
        && page == (if reset then 1 else old(page))
        && !isLoading
    {
      if showWatchlistOnly {
        return None;
      }
      isLoading := true;
      var currentPage := if reset then 1 else page;
      var query := Query(currentPage, search, genre, sort);
      sent := Some(query);
      var response := fetchAnime(query);
      if response.None? {
        return;
      }
      var merged := Merge(animeList, response.value.anime, reset);
      DedupSpec(merged);
      if !reset && UniqueIds(animeList) {
        AppendPageKeepsShown(animeList, response.value.anime);
      }
      animeList := Dedup(merged);
      hasNextPage := response.value.hasNextPage;
      if reset {
        page := 1;
      }
      isLoading := false;
    }

    /**
     * `loadWatchlist`: an empty watchlist clears the list and stops loading
     * without a request; otherwise the listed ids are fetched, shown as
     * returned, and no further page is offered.
     */
    method LoadWatchlist(fetchAnimeByIds: seq<int> -> Option<seq<Anime>>) returns (requested: bool)
      modifies this`isLoading, this`animeList, this`hasNextPage
      ensures requested <==> |watchlist| > 0
      ensures !requested ==> animeList == [] && !isLoading && hasNextPage == old(hasNextPage)
      ensures requested && fetchAnimeByIds(watchlist).None? ==>
        isLoading && animeList == old(animeList) && hasNextPage == old(hasNextPage)
      ensures requested && fetchAnimeByIds(watchlist).Some? ==>
        animeList == fetchAnimeByIds(watchlist).value && !hasNextPage && !isLoading
    {
      if |watchlist| == 0 {
        animeList := [];
        isLoading := false;
        return false;
      }
      requested := true;
      isLoading := true;
      var response := fetchAnimeByIds(watchlist);
      if response.None? {
        return;
      }
      animeList := response.value;
      hasNextPage := false;
      isLoading := false;
    }

    /**
     * The debounced effect after a filter or mode change: in watchlist mode
     * the watchlist is loaded and the page cursor is untouched; otherwise the
     * list is reloaded from page 1 with the current filters.
     */
    method RefreshAfterFilters(fetchAnime: Query -> Option<Page>, fetchAnimeByIds: seq<int> -> Option<seq<Anime>>)
      requires Valid()
      modifies this`isLoading, this`animeList, this`hasNextPage, this`page
      ensures Valid()
      ensures showWatchlistOnly ==> page == old(page)
      ensures showWatchlistOnly && |watchlist| == 0 ==>
        animeList == [] && !isLoading && hasNextPage == old(hasNextPage)
      ensures showWatchlistOnly && |watchlist| > 0 && fetchAnimeByIds(watchlist).None? ==>
        isLoading && animeList == old(animeList) && hasNextPage == old(hasNextPage)
      ensures showWatchlistOnly && |watchlist| > 0 && fetchAnimeByIds(watchlist).Some? ==>
        animeList == fetchAnimeByIds(watchlist).value && !hasNextPage && !isLoading
      ensures !showWatchlistOnly && fetchAnime(Query(1, search, genre, sort)).None? ==>
        isLoading && animeList == old(animeList) && hasNextPage == old(hasNextPage) && page == old(page)
      ensures !showWatchlistOnly && fetchAnime(Query(1, search, genre, sort)).Some? ==>
        var response := fetchAnime(Query(1, search, genre, sort)).value;
        && animeList == Dedup(response.anime)
        && hasNextPage == response.hasNextPage
        && page == 1
        && !isLoading
    {
      if showWatchlistOnly {
        var _ := LoadWatchlist(fetchAnimeByIds);
      } else {
        var _ := LoadAnime(true, fetchAnime);
      }
    }

    /**
     * The infinite-scroll effect: past the first page and outside watchlist
     * mode, the current page is fetched and appended to the shown list,
     * de-duplicated; otherwise nothing changes.
     */
    method OnPageChange(fetchAnime: Query -> Option<Page>) returns (sent: Option<Query>)
      requires Valid()
      modifies this`isLoading, this`animeList, this`hasNextPage, this`page
      ensures Valid() && page == old(page)
      ensures sent.Some? <==> old(page) > 1 && !showWatchlistOnly
      ensures sent.None? ==> unchanged(this)
      ensures sent.Some? ==> sent.value == Query(page, search, genre, sort)
      ensures sent.Some? && fetchAnime(sent.value).None? ==>
        isLoading && animeList == old(animeList) && hasNextPage == old(hasNextPage)
      ensures sent.Some? && fetchAnime(sent.value).Some? ==>
        var response := fetchAnime(sent.value).value;
        && animeList == Dedup(Merge(old(animeList), response.anime, false))
        && hasNextPage == response.hasNextPage
        && !isLoading
    {
      sent := None;
      if page > 1 && !showWatchlistOnly {
        sent := LoadAnime(false, fetchAnime);
      }
    }

    /** `handleToggleWatchlist`: the id's membership flips, nothing is duplicated, other ids keep their order. */
    method ToggleWatchlist(animeId: int)
      modifies this`watchlist
      ensures watchlist == Toggle(old(watchlist), animeId)
      ensures animeId in watchlist <==> animeId !in old(watchlist)
      ensures RemoveAll(watchlist, animeId) == RemoveAll(old(watchlist), animeId)
      ensures NoDup(old(watchlist)) ==> NoDup(watchlist)
    {
      ToggleSpec(watchlist, animeId);
      if NoDup(watchlist) {
        TogglePreservesNoDup(watchlist, animeId);
      }
      watchlist := Toggle(watchlist, animeId);
    }

    /** `handleFilterChange`: watchlist mode is left; each provided field that differs is set, the others are kept. */
    method FilterChanged(filters: FilterChange)
      modifies this`showWatchlistOnly, this`search, this`genre, this`sort
      ensures !showWatchlistOnly
      ensures search == ApplyFilter(old(search), filters.search)
      ensures genre == ApplyFilter(old(genre), filters.genre)
      ensures sort == ApplyFilter(old(sort), filters.sort)
    {
      showWatchlistOnly := false;
      if filters.search.Some? && filters.search.value != search {
        search := filters.search.value;
      }
      if filters.genre.Some? && filters.genre.value != genre {
        genre := filters.genre.value;
      }
      if filters.sort.Some? && filters.sort.value != sort {
        sort := filters.sort.value;
      }
    }

    /** `handleToggleWatchlistFilter`: the shown list is cleared and watchlist mode flips. */
    method ToggleWatchlistFilter()
      modifies this`animeList, this`showWatchlistOnly
      ensures animeList == []
      ensures showWatchlistOnly == !old(showWatchlistOnly)
    {
      animeList := [];
      showWatchlistOnly := !showWatchlistOnly;
    }
  }
}

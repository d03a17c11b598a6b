/** `js/blog.js`: the list page. It keeps the published records sorted by
    date, narrows them by a tag and a search string, offers each tag once
    as a filter button, and caches the loaded list for an hour.

    `fetch` and `localStorage` become inputs and outputs: the fetched list
    is an argument (None when the request or the JSON parse fails) and the
    cache is an optional entry passed in and returned. */
module Blog {
  import opened Options
  import opened Strings
  import opened Seqs
  import opened Articles

  /** One hour in milliseconds. */
  const CacheExpiry: int := 1000 * 60 * 60

  /** The stored `{articles, timestamp}`. */
  datatype CacheEntry = CacheEntry(articles: seq<Article>, timestamp: int)

  /** The list page's state. `tagFilter` None is `null`. */
  datatype Page = Page(
    articles: seq<Article>,
    filtered: seq<Article>,
    tagFilter: Option<string>,
    search: string,
    sortOrder: string)

  const Initial := Page([], [], None, "", "desc")

  /** `sortOrder === 'desc'`: anything else sorts ascending. */
  predicate Descending(order: string) {
    order == "desc"
  }

  /** `getCachedArticles()` at time `now`: the entry's list while it is
      fresh; a stale entry is removed. Also returns the cache afterwards. */
  function GetCached(cache: Option<CacheEntry>, now: int): (r: (Option<seq<Article>>, Option<CacheEntry>))
    ensures r.0.Some? <==> cache.Some? && now - cache.value.timestamp <= CacheExpiry
    ensures r.0.Some? ==> r.0.value == cache.value.articles && r.1 == cache
    ensures r.0.None? ==> r.1 == None
  {
    match cache
    case None => (None, None)
    case Some(entry) =>
      if now - entry.timestamp > CacheExpiry then (None, None)
      else (Some(entry.articles), cache)
  }

  /** `loadArticles()`: from a fresh cache as stored, otherwise from the
      fetched index, published only and sorted by `sortOrder`, which is
      then cached with the current time. */
  function LoadArticles(p: Page, cache: Option<CacheEntry>, now: int, fetched: Option<seq<Article>>): (r: (Page, Option<CacheEntry>))
    ensures r.0.filtered == r.0.articles
    ensures r.0.tagFilter == p.tagFilter && r.0.search == p.search && r.0.sortOrder == p.sortOrder
    ensures GetCached(cache, now).0.Some? ==> r.0.articles == cache.value.articles && r.1 == cache
    ensures GetCached(cache, now).0.None? && fetched.Some? ==>
      && (forall i | 0 <= i < |r.0.articles| :: IsPublished(r.0.articles[i]))
      && Sorted(Descending(p.sortOrder), r.0.articles)
      && multiset(r.0.articles) == multiset(Filter(IsPublished, fetched.value))
      && r.1 == Some(CacheEntry(r.0.articles, now))
    ensures GetCached(cache, now).0.None? && fetched.None? ==> r.0.articles == [] && r.1 == None
  {
    match GetCached(cache, now)
    case (Some(cached), c) => (p.(articles := cached, filtered := cached), c)
    case (None, c) =>
      match fetched
      case None => (p.(articles := [], filtered := []), c)
      case Some(all) =>
        var published := Filter(IsPublished, all);
        var sorted := SortByDate(Descending(p.sortOrder), published);
        PermutationKeeps(published, sorted);
        (p.(articles := sorted, filtered := sorted), Some(CacheEntry(sorted, now)))
  }

  /** A reordering keeps the property every element has. */
  lemma PermutationKeeps(s: seq<Article>, r: seq<Article>)
    requires multiset(r) == multiset(s)
    requires forall i | 0 <= i < |s| :: IsPublished(s[i])
    ensures forall i | 0 <= i < |r| :: IsPublished(r[i])
  {
    forall i | 0 <= i < |r|
      ensures IsPublished(r[i])
    {
      assert r[i] in multiset(s);
    }
  }

  /** A list loaded from the network is served from the cache for the next
      hour, unchanged. */
  lemma ReloadWithinHourUsesCache(p: Page, cache: Option<CacheEntry>, now: int, fetched: seq<Article>, later: int, again: Option<seq<Article>>)
    requires GetCached(cache, now).0.None?
    requires now <= later <= now + CacheExpiry
    ensures var (p1, c1) := LoadArticles(p, cache, now, Some(fetched));
      LoadArticles(p1, c1, later, again).0.articles == p1.articles
  {
  }

  /** An hour and a millisecond later the cached list is dropped. */
  lemma CacheExpires(entry: CacheEntry, now: int)
    requires now > entry.timestamp + CacheExpiry
    ensures GetCached(Some(entry), now) == (None, None)
  {
  }

  /** The tag filter: `includes` on a truthy filter. */
  predicate TagMatches(filter: Option<string>, a: Article) {
    filter.Some? && filter.value != "" ==> filter.value in a.tags
  }

  /** The query appears in the lower-cased text. */
  predicate MentionsIn(text: string, query: string) {
    Contains(Lower(text), Lower(query))
  }

  /** The search filter: title, excerpt or some tag mentions the query. */
  predicate SearchMatches(search: string, a: Article) {
    search != "" ==>
      MentionsIn(a.title, search) || MentionsIn(a.excerpt, search)
      || exists k | 0 <= k < |a.tags| :: MentionsIn(a.tags[k], search)
  }

  /** `applyFilters()`: the tag filter, then the search. */
  function ApplyFilters(p: Page): (r: Page)
    ensures r.articles == p.articles && r.tagFilter == p.tagFilter && r.search == p.search
    ensures IsSubseq(r.filtered, p.articles)
    ensures forall i | 0 <= i < |p.articles| ::
      p.articles[i] in r.filtered <==> TagMatches(p.tagFilter, p.articles[i]) && SearchMatches(p.search, p.articles[i])
  {
    var byTag := Filter((a: Article) => TagMatches(p.tagFilter, a), p.articles);
    var bySearch := Filter((a: Article) => SearchMatches(p.search, a), byTag);
    FilterIsSubseq((a: Article) => TagMatches(p.tagFilter, a), p.articles);
    FilterIsSubseq((a: Article) => SearchMatches(p.search, a), byTag);
    SubseqTrans(bySearch, byTag, p.articles);
    p.(filtered := bySearch)
  }

  /** With no tag filter and no search every article is shown, in order. */
  lemma NoFiltersShowAll(p: Page)
    requires p.tagFilter.None? && p.search == ""
    ensures ApplyFilters(p).filtered == p.articles
  {
    FilterAll((a: Article) => TagMatches(p.tagFilter, a), p.articles);
    FilterAll((a: Article) => SearchMatches(p.search, a), p.articles);
  }

  /** `filterByTag(tag)`: 'all' clears the filter. */
  function FilterByTag(p: Page, tag: string): (r: Page)
    ensures tag == "all" ==> r.tagFilter.None?
    ensures tag != "all" ==> r.tagFilter == Some(tag)
    ensures tag != "" && tag != "all" ==> forall i | 0 <= i < |r.filtered| :: tag in r.filtered[i].tags
    ensures IsSubseq(r.filtered, p.articles)
    ensures r.articles == p.articles && r.search == p.search
    ensures forall i | 0 <= i < |p.articles| ::
      p.articles[i] in r.filtered <==> TagMatches(r.tagFilter, p.articles[i]) && SearchMatches(p.search, p.articles[i])
  {
    var r := ApplyFilters(p.(tagFilter := if tag == "all" then None else Some(tag)));
    assert forall i | 0 <= i < |r.filtered| :: r.filtered[i] in p.articles by {
      SubseqMembers(r.filtered, p.articles);
    }
    r
  }

  /** `search(query)`. */
  function Search(p: Page, query: string): (r: Page)
    ensures r.search == query && r.tagFilter == p.tagFilter
    ensures query != "" ==> forall i | 0 <= i < |r.filtered| :: SearchMatches(query, r.filtered[i])
    ensures r.articles == p.articles && IsSubseq(r.filtered, p.articles)
    ensures forall i | 0 <= i < |p.articles| ::
      p.articles[i] in r.filtered <==> TagMatches(p.tagFilter, p.articles[i]) && SearchMatches(query, p.articles[i])
  {
    var r := ApplyFilters(p.(search := query));
    SubseqMembers(r.filtered, p.articles);
    r
  }

  /** The search box handler trims what was typed. */
  function SearchInput(p: Page, typed: string): (r: Page)
    ensures r.search == Trim(typed)
  {
    Search(p, Trim(typed))
  }

  /** `sortByDate(order)`: re-sorts the list, then re-filters it. */
  function SortBy(p: Page, order: string): (r: Page)
    ensures r.sortOrder == order
    ensures Sorted(Descending(order), r.articles) && multiset(r.articles) == multiset(p.articles)
    ensures Sorted(Descending(order), r.filtered)
    ensures r.tagFilter == p.tagFilter && r.search == p.search
    ensures forall i | 0 <= i < |r.articles| ::
      r.articles[i] in r.filtered <==> TagMatches(p.tagFilter, r.articles[i]) && SearchMatches(p.search, r.articles[i])
  {
    var q := ApplyFilters(p.(sortOrder := order, articles := SortByDate(Descending(order), p.articles)));
    SubseqSorted(Descending(order), q.filtered, q.articles);
    q
  }

  /** Every tag of every article, in article order. */
  function AllTags(s: seq<Article>): seq<string> {
    if s == [] then [] else s[0].tags + AllTags(s[1..])
  }

  lemma {:induction false} AllTagsMembers(s: seq<Article>, t: string)
    ensures t in AllTags(s) <==> exists i | 0 <= i < |s| :: t in s[i].tags
    decreases |s|
  {
    if s != [] {
      AllTagsMembers(s[1..], t);
      if exists i | 0 <= i < |s[1..]| :: t in s[1..][i].tags {
        var i :| 0 <= i < |s[1..]| && t in s[1..][i].tags;
        assert t in s[i + 1].tags;
      }
      if exists i | 1 <= i < |s| :: t in s[i].tags {
        var i :| 1 <= i < |s| && t in s[i].tags;
        assert t in s[1..][i - 1].tags;
      }
    }
  }

  /** The filter buttons of `initFilters`: each tag once, in order of first
      occurrence. */
  function FilterTags(s: seq<Article>): (r: seq<string>)
    ensures NoDup(r)
    ensures forall t :: t in r <==> exists i | 0 <= i < |s| :: t in s[i].tags
    ensures forall i | 0 <= i < |r| :: r[i] in AllTags(s)
    ensures forall i, j | 0 <= i < j < |r| :: FirstIndex(AllTags(s), r[i]) < FirstIndex(AllTags(s), r[j])
  {
    var all := AllTags(s);
    forall t
      ensures t in Dedup(all) <==> exists i | 0 <= i < |s| :: t in s[i].tags
    {
      AllTagsMembers(s, t);
    }
    DedupFirstOccurrenceOrder(all);
    Dedup(all)
  }
}

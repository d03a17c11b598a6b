/** `js/article.js`: the page of one article. It loads the published
    records newest first, finds the current one by the id in its
    `article-id` meta tag, links to its neighbours in that list, and offers
    up to three other records that share a tag with it.

    The fetched index is an argument: None when the request or the JSON
    parse fails, which leaves the list empty. */
module ArticlePage {
  import opened Options
  import opened Seqs
  import opened Dates
  import opened Articles

  /** `loadAllArticles()`: published records, newest first. */
  function LoadAll(fetched: Option<seq<Article>>): (r: seq<Article>)
    ensures Sorted(true, r)
    ensures forall i | 0 <= i < |r| :: IsPublished(r[i])
    ensures fetched.Some? ==> multiset(r) == multiset(Filter(IsPublished, fetched.value))
    ensures fetched.None? ==> r == []
  {
    match fetched
    case None => []
    case Some(all) =>
      var published := Filter(IsPublished, all);
      var r := SortByDate(true, published);
      forall i | 0 <= i < |r|
        ensures IsPublished(r[i])
      {
        assert r[i] in multiset(published);
      }
      r
  }

  /** The neighbours `initNavigation` links to. */
  datatype Navigation = Navigation(prev: Option<Article>, next: Option<Article>)

  /** `initNavigation()` for the record at index `idx` of `all`. */
  function Neighbours(all: seq<Article>, idx: nat): (n: Navigation)
    requires idx < |all|
    ensures n.prev.Some? <==> idx > 0
    ensures n.prev.Some? ==> n.prev.value == all[idx - 1]
    ensures n.next.Some? <==> idx < |all| - 1
    ensures n.next.Some? ==> n.next.value == all[idx + 1]
  {
    Navigation(
      if idx > 0 then Some(all[idx - 1]) else None,
      if idx < |all| - 1 then Some(all[idx + 1]) else None)
  }

  /** In the newest-first list the previous link is never older and the
      next link never newer than the current record. */
  lemma NeighboursByDate(all: seq<Article>, idx: nat)
    requires idx < |all| && Sorted(true, all)
    ensures Neighbours(all, idx).prev.Some? ==> LexLe(all[idx].date, Neighbours(all, idx).prev.value.date)
    ensures Neighbours(all, idx).next.Some? ==> LexLe(Neighbours(all, idx).next.value.date, all[idx].date)
  {
  }

  /** `article.tags.some(tag => current.tags.includes(tag))`. */
  predicate SharesTag(a: Article, current: Article) {
    exists k | 0 <= k < |a.tags| :: a.tags[k] in current.tags
  }

  predicate Qualifies(a: Article, current: Article, currentId: string) {
    a.id != currentId && SharesTag(a, current)
  }

  /** `loadRelatedArticles()`: the first three other records sharing a tag. */
  function Related(all: seq<Article>, current: Article, currentId: string): (r: seq<Article>)
    ensures |r| <= 3
    ensures forall i | 0 <= i < |r| :: r[i].id != currentId && SharesTag(r[i], current)
    ensures IsSubseq(r, all)
  {
    var q := Filter((a: Article) => Qualifies(a, current, currentId), all);
    FilterIsSubseq((a: Article) => Qualifies(a, current, currentId), all);
    TakeIsSubseq(q, 3);
    SubseqTrans(Take(q, 3), q, all);
    Take(q, 3)
  }

  /** Fewer than three qualifying records are all shown; otherwise three
      are, and every qualifying record shown comes before every one left
      out. */
  lemma RelatedAreFirst(all: seq<Article>, current: Article, currentId: string)
    ensures var q := Filter((a: Article) => Qualifies(a, current, currentId), all);
      var r := Related(all, current, currentId);
      (|q| <= 3 ==> r == q) && (|q| > 3 ==> |r| == 3 && r == q[..3])
  {
  }

  /** Related records keep the list's newest-first order. */
  lemma RelatedNewestFirst(all: seq<Article>, current: Article, currentId: string)
    requires Sorted(true, all)
    ensures Sorted(true, Related(all, current, currentId))
  {
    SubseqSorted(true, Related(all, current, currentId), all);
  }

  /** What the page shows. `DateThrows` is the found record whose date
      `new Date(...)` cannot read: `toISOString()` in `updateSEOTags`
      throws before the navigation and related records are set up. */
  datatype View =
    | NoMetaId
    | NotInIndex
    | DateThrows(current: Article, index: nat)
    | Shown(current: Article, index: nat, nav: Navigation, related: seq<Article>)

  /** `init()` for a page whose `article-id` meta tag reads `metaId`, with
      `parse` standing for `new Date(...)`. */
  function Init(parse: DateParser, metaId: Option<string>, fetched: Option<seq<Article>>): (v: View)
    ensures metaId.None? || metaId == Some("") ==> v == NoMetaId
    ensures v == NotInIndex <==> metaId.Some? && metaId.value != "" && !HasId(LoadAll(fetched), metaId.value)
    ensures v.Shown? || v.DateThrows? ==>
      && v.index < |LoadAll(fetched)| && LoadAll(fetched)[v.index] == v.current
      && v.current.id == metaId.value && IsPublished(v.current)
      && (forall j | 0 <= j < v.index :: LoadAll(fetched)[j].id != metaId.value)
    ensures v.DateThrows? ==> parse(v.current.date).None?
    ensures v.Shown? ==> parse(v.current.date).Some?
    ensures v.Shown? ==> v.nav == Neighbours(LoadAll(fetched), v.index)
    ensures v.Shown? ==> v.related == Related(LoadAll(fetched), v.current, metaId.value)
  {
    match metaId
    case None => NoMetaId
    case Some(id) =>
      if id == "" then NoMetaId
      else
        var all := LoadAll(fetched);
        match FindById(all, id)
        case None => NotInIndex
        case Some(idx) =>
          if parse(all[idx].date).None? then DateThrows(all[idx], idx)
          else Shown(all[idx], idx, Neighbours(all, idx), Related(all, all[idx], id))
  }

  /** `formatDate(dateString)`, as the page prints a record's date. */
  function DisplayDate(parse: DateParser, a: Article): (s: string)
    ensures parse(a.date).Some? ==> ParseDisplayDate(s) == parse(a.date)
    ensures parse(a.date).None? ==> s == "NaN undefined NaN"
  {
    match parse(a.date)
    case None => FormatDateString(parse, a.date)
    case Some(d) =>
      FormatDateRoundTrip(d);
      FormatDate(d)
  }
}

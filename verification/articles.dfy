/** The article record of `blog/articles.json` and the operations every part
    of the blog applies to the index: lookup by id, and the stable sort by
    date that the server, the command-line tool and both reader pages use. */
module Articles {
  import opened Options
  import opened Dates
  import opened Seqs

  /** One entry of the index. `content` is present only on records the API
      server created, since it stores the whole request object. */
  datatype Article = Article(
    id: string,
    title: string,
    date: string,
    tags: seq<string>,
    excerpt: string,
    contentFile: string,
    status: string,
    readTime: int,
    icon: string,
    content: Option<string>)

  /** Only these records are shown to readers. */
  predicate IsPublished(a: Article) {
    a.status == "published"
  }

  predicate HasId(s: seq<Article>, id: string) {
    exists i | 0 <= i < |s| :: s[i].id == id
  }

  predicate UniqueIds(s: seq<Article>) {
    forall i, j | 0 <= i < j < |s| :: s[i].id != s[j].id
  }

  /** `findIndex(a => a.id === id)`, with None for -1. */
  function FindById(s: seq<Article>, id: string): (r: Option<nat>)
    ensures r.Some? <==> HasId(s, id)
    ensures r.Some? ==> r.value < |s| && s[r.value].id == id
    ensures r.Some? ==> forall j | 0 <= j < r.value :: s[j].id != id
  {
    if s == [] then None
    else if s[0].id == id then Some(0)
    else
      match FindById(s[1..], id)
      case None =>
        assert forall i | 1 <= i < |s| :: s[i] == s[1..][i - 1];
        None
      case Some(k) => Some(k + 1)
  }

  /** With unique ids, the record found is the only one carrying that id. */
  lemma FindByIdUnique(s: seq<Article>, id: string, i: nat)
    requires UniqueIds(s)
    requires i < |s| && s[i].id == id
    ensures FindById(s, id) == Some(i)
  {
  }

  /** Appending a record with a new id keeps ids unique. */
  lemma UniqueIdsAppend(s: seq<Article>, x: Article)
    requires UniqueIds(s) && !HasId(s, x.id)
    ensures UniqueIds(s + [x])
  {
    assert forall i | 0 <= i < |s| :: (s + [x])[i] == s[i];
  }

  /** Removing one record keeps ids unique. */
  lemma UniqueIdsRemove(s: seq<Article>, k: nat)
    requires UniqueIds(s) && k < |s|
    ensures UniqueIds(s[..k] + s[k + 1..])
  {
    var r := s[..k] + s[k + 1..];
    assert forall i | 0 <= i < |r| :: r[i] == s[if i < k then i else i + 1];
  }

  /** Replacing a record by one with the same id keeps ids unique. */
  lemma UniqueIdsReplace(s: seq<Article>, k: nat, x: Article)
    requires UniqueIds(s) && k < |s| && x.id == s[k].id
    ensures UniqueIds(s[k := x])
  {
  }

  /** A record occurring twice is counted twice. */
  lemma CountedTwice(r: seq<Article>, i: nat, j: nat)
    requires i < j < |r| && r[i] == r[j]
    ensures multiset(r)[r[i]] >= 2
  {
    assert r == r[..j] + r[j..];
    assert r[i] in r[..j];
    assert r[j] == r[j..][0];
  }

  /** With unique ids no record occurs twice. */
  lemma {:induction false} CountedOnce(s: seq<Article>, x: Article)
    requires UniqueIds(s)
    ensures multiset(s)[x] <= 1
    decreases |s|
  {
    if s != [] {
      var init := s[..|s| - 1];
      assert s == init + [s[|s| - 1]];
      assert UniqueIds(init);
      CountedOnce(init, x);
      if x == s[|s| - 1] {
        assert forall i | 0 <= i < |init| :: init[i].id != x.id;
        assert x !in init;
      }
    }
  }

  /** Unique ids survive any reordering, in particular the date sort. */
  lemma UniqueIdsPermutation(s: seq<Article>, r: seq<Article>)
    requires UniqueIds(s) && multiset(r) == multiset(s)
    ensures UniqueIds(r)
  {
    forall i, j | 0 <= i < j < |r|
      ensures r[i].id != r[j].id
    {
      if r[i].id == r[j].id {
        assert r[i] in multiset(s) && r[j] in multiset(s);
        var a :| 0 <= a < |s| && s[a] == r[i];
        var b :| 0 <= b < |s| && s[b] == r[j];
        if a == b {
          CountedTwice(r, i, j);
          CountedOnce(s, r[i]);
        }
        assert false;
      }
    }
  }

  /** `a` may stand before `b` in the sorted index. The comparator
      `new Date(b.date) - new Date(a.date)` (descending) or its mirror
      (ascending) is modelled as the order on the date text, which is the
      chronological order for `YYYY-MM-DD` dates (`IsoOrderIsChronological`). */
  predicate InOrder(desc: bool, a: Article, b: Article) {
    if desc then LexLe(b.date, a.date) else LexLe(a.date, b.date)
  }

  lemma InOrderTrans(desc: bool, a: Article, b: Article, c: Article)
    requires InOrder(desc, a, b) && InOrder(desc, b, c)
    ensures InOrder(desc, a, c)
  {
    if desc {
      LexLeTrans(c.date, b.date, a.date);
    } else {
      LexLeTrans(a.date, b.date, c.date);
    }
  }

  lemma InOrderTotal(desc: bool, a: Article, b: Article)
    ensures InOrder(desc, a, b) || InOrder(desc, b, a)
  {
    LexLeTotal(a.date, b.date);
  }

  /** Records with the same date compare equal in both directions. */
  lemma InOrderSameDate(desc: bool, a: Article, b: Article)
    requires a.date == b.date
    ensures InOrder(desc, a, b)
  {
    LexLeRefl(a.date);
  }

  predicate Sorted(desc: bool, s: seq<Article>) {
    forall i, j | 0 <= i < j < |s| :: InOrder(desc, s[i], s[j])
  }

  /** The records dated `d`, in index order. */
  function OnDate(s: seq<Article>, d: string): seq<Article> {
    if s == [] then [] else (if s[0].date == d then [s[0]] else []) + OnDate(s[1..], d)
  }

  lemma {:induction false} OnDateConcat(a: seq<Article>, b: seq<Article>, d: string)
    ensures OnDate(a + b, d) == OnDate(a, d) + OnDate(b, d)
    decreases |a|
  {
    if a == [] {
      assert a + b == b;
    } else {
      assert (a + b)[1..] == a[1..] + b;
      OnDateConcat(a[1..], b, d);
    }
  }

  lemma {:induction false} OnDateNone(s: seq<Article>, d: string)
    requires forall j | 0 <= j < |s| :: s[j].date != d
    ensures OnDate(s, d) == []
    decreases |s|
  {
    if s != [] {
      OnDateNone(s[1..], d);
    }
  }

  /** Where a stable insertion puts `x`: after every record that may precede
      it, which in a sorted sequence is a prefix. */
  function InsertPos(desc: bool, r: seq<Article>, x: Article): (k: nat)
    requires Sorted(desc, r)
    ensures k <= |r|
    ensures forall j | 0 <= j < k :: InOrder(desc, r[j], x)
    ensures forall j | k <= j < |r| :: !InOrder(desc, r[j], x)
  {
    if r == [] || !InOrder(desc, r[0], x) then
      assert forall j | 0 < j < |r| :: InOrder(desc, r[0], r[j]);
      InsertNothingBefore(desc, r, x);
      0
    else
      assert Sorted(desc, r[1..]) by {
        assert forall i | 0 <= i < |r| - 1 :: r[1..][i] == r[i + 1];
      }
      1 + InsertPos(desc, r[1..], x)
  }

  lemma InsertNothingBefore(desc: bool, r: seq<Article>, x: Article)
    requires Sorted(desc, r)
    requires r == [] || !InOrder(desc, r[0], x)
    ensures forall j | 0 <= j < |r| :: !InOrder(desc, r[j], x)
  {
    forall j | 0 < j < |r|
      ensures !InOrder(desc, r[j], x)
    {
      if InOrder(desc, r[j], x) {
        InOrderTrans(desc, r[0], r[j], x);
      }
    }
  }

  /** Stable insertion of `x` into a sorted sequence. */
  function Insert(desc: bool, r: seq<Article>, x: Article): (out: seq<Article>)
    requires Sorted(desc, r)
    ensures Sorted(desc, out)
    ensures multiset(out) == multiset(r) + multiset{x}
    ensures forall d :: OnDate(out, d) == OnDate(r, d) + (if x.date == d then [x] else [])
  {
    var k := InsertPos(desc, r, x);
    var out := r[..k] + [x] + r[k..];
    InsertSorted(desc, r, x, k);
    assert r == r[..k] + r[k..];
    forall d
      ensures OnDate(out, d) == OnDate(r, d) + (if x.date == d then [x] else [])
    {
      InsertOnDate(desc, r, x, k, d);
    }
    out
  }

  lemma InsertSorted(desc: bool, r: seq<Article>, x: Article, k: nat)
    requires Sorted(desc, r) && k <= |r|
    requires forall j | 0 <= j < k :: InOrder(desc, r[j], x)
    requires forall j | k <= j < |r| :: !InOrder(desc, r[j], x)
    ensures Sorted(desc, r[..k] + [x] + r[k..])
  {
    var out := r[..k] + [x] + r[k..];
    forall i, j | 0 <= i < j < |out|
      ensures InOrder(desc, out[i], out[j])
    {
      if j == k {
        assert out[i] == r[i];
      } else if i == k {
        assert out[j] == r[j - 1];
        InOrderTotal(desc, r[j - 1], x);
      } else {
        var i' := if i < k then i else i - 1;
        var j' := if j < k then j else j - 1;
        assert out[i] == r[i'] && out[j] == r[j'];
      }
    }
  }

  lemma InsertOnDate(desc: bool, r: seq<Article>, x: Article, k: nat, d: string)
    requires k <= |r|
    requires forall j | k <= j < |r| :: !InOrder(desc, r[j], x)
    ensures OnDate(r[..k] + [x] + r[k..], d)
         == OnDate(r, d) + (if x.date == d then [x] else [])
  {
    OnDateConcat(r[..k] + [x], r[k..], d);
    OnDateConcat(r[..k], [x], d);
    OnDateConcat(r[..k], r[k..], d);
    assert r == r[..k] + r[k..];
    assert OnDate([x], d) == (if x.date == d then [x] else []);
    if x.date == d {
      forall i | 0 <= i < |r| - k
        ensures r[k..][i].date != d
      {
        if r[k + i].date == d {
          InOrderSameDate(desc, r[k + i], x);
        }
      }
      OnDateNone(r[k..], d);
    }
  }

  /** `array.sort(comparator)`: a stable sort by date (ECMAScript requires
      `Array.prototype.sort` to be stable). The result is sorted, is a
      permutation of the input, and keeps records of equal date in their
      original relative order. */
  function SortByDate(desc: bool, s: seq<Article>): (r: seq<Article>)
    ensures Sorted(desc, r)
    ensures multiset(r) == multiset(s)
    ensures forall d :: OnDate(r, d) == OnDate(s, d)
    decreases |s|
  {
    if s == [] then []
    else
      var init := s[..|s| - 1];
      var x := s[|s| - 1];
      InitLast(s);
      var r := Insert(desc, SortByDate(desc, init), x);
      forall d
        ensures OnDate(r, d) == OnDate(s, d)
      {
        OnDateConcat(init, [x], d);
      }
      r
  }

  lemma InitLast(s: seq<Article>)
    requires s != []
    ensures s == s[..|s| - 1] + [s[|s| - 1]]
  {
  }

  /** Appending a record and re-sorting puts it after every existing record
      with the same date. */
  lemma AppendedLandsLast(desc: bool, s: seq<Article>, x: Article)
    ensures OnDate(SortByDate(desc, s + [x]), x.date) == OnDate(s, x.date) + [x]
  {
    OnDateConcat(s, [x], x.date);
  }

  /** Sorting an already sorted index changes nothing. */
  lemma {:induction false} SortSortedNoop(desc: bool, s: seq<Article>)
    requires Sorted(desc, s)
    ensures SortByDate(desc, s) == s
    decreases |s|
  {
    if s != [] {
      var init := s[..|s| - 1];
      var x := s[|s| - 1];
      SortedInit(desc, s);
      SortSortedNoop(desc, init);
      InsertAtEnd(desc, init, x);
      InitLast(s);
    }
  }

  lemma SortedInit(desc: bool, s: seq<Article>)
    requires Sorted(desc, s) && s != []
    ensures Sorted(desc, s[..|s| - 1])
    ensures forall j | 0 <= j < |s| - 1 :: InOrder(desc, s[j], s[|s| - 1])
  {
  }

  lemma {:induction false} InsertPosAll(desc: bool, r: seq<Article>, x: Article)
    requires Sorted(desc, r)
    requires forall j | 0 <= j < |r| :: InOrder(desc, r[j], x)
    ensures InsertPos(desc, r, x) == |r|
    decreases |r|
  {
    if r != [] {
      assert Sorted(desc, r[1..]) by {
        assert forall i | 0 <= i < |r| - 1 :: r[1..][i] == r[i + 1];
      }
      assert InOrder(desc, r[0], x);
      InsertPosAll(desc, r[1..], x);
    }
  }

  /** A record that may follow every record of a sorted sequence is
      inserted at its end. */
  lemma InsertAtEnd(desc: bool, r: seq<Article>, x: Article)
    requires Sorted(desc, r)
    requires forall j | 0 <= j < |r| :: InOrder(desc, r[j], x)
    ensures Insert(desc, r, x) == r + [x]
  {
    InsertPosAll(desc, r, x);
    assert r[..|r|] + [x] + r[|r|..] == r + [x];
  }

  /** Deleting elements from a sorted list leaves it sorted. */
  lemma {:induction false} SubseqSorted(desc: bool, a: seq<Article>, b: seq<Article>)
    requires IsSubseq(a, b) && Sorted(desc, b)
    ensures Sorted(desc, a)
    decreases |b|
  {
    if a != [] && b != [] {
      if a[0] == b[0] && IsSubseq(a[1..], b[1..]) {
        SubseqSorted(desc, a[1..], b[1..]);
        SubseqMembers(a[1..], b[1..]);
        forall i, j | 0 <= i < j < |a|
          ensures InOrder(desc, a[i], a[j])
        {
          if i > 0 {
            assert a[i] == a[1..][i - 1] && a[j] == a[1..][j - 1];
          } else {
            assert a[j] == a[1..][j - 1];
            var m :| 0 <= m < |b[1..]| && b[1..][m] == a[j];
            assert b[m + 1] == a[j];
          }
        }
      } else {
        SubseqSorted(desc, a, b[1..]);
      }
    }
  }
}

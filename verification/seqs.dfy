/** Generic sequence vocabulary for the list logic: `filter`, order-preserving
    subsequences, `slice(0, n)`, and de-duplication in first-occurrence order
    (what iterating a JavaScript `Set` yields). */
module Seqs {

  /** `s.filter(p)`: keeps exactly the elements satisfying `p`. */
  function Filter<T>(p: T -> bool, s: seq<T>): (r: seq<T>)
    ensures |r| <= |s|
    ensures forall i | 0 <= i < |r| :: p(r[i])
    ensures forall i | 0 <= i < |r| :: r[i] in s
    ensures forall i | 0 <= i < |s| :: s[i] in r <==> p(s[i])
  {
    if s == [] then [] else (if p(s[0]) then [s[0]] else []) + Filter(p, s[1..])
  }

  lemma {:induction false} FilterConcat<T>(p: T -> bool, a: seq<T>, b: seq<T>)
    ensures Filter(p, a + b) == Filter(p, a) + Filter(p, b)
    decreases |a|
  {
    if a != [] {
      assert (a + b)[1..] == a[1..] + b;
      FilterConcat(p, a[1..], b);
    } else {
      assert a + b == b;
    }
  }

  /** Filtering keeps everything when every element qualifies. */
  lemma {:induction false} FilterAll<T>(p: T -> bool, s: seq<T>)
    requires forall i | 0 <= i < |s| :: p(s[i])
    ensures Filter(p, s) == s
    decreases |s|
  {
    if s != [] {
      FilterAll(p, s[1..]);
    }
  }

  /** `a` is obtained from `b` by deleting elements: the relative order of what
      remains is the order in `b`. */
  predicate IsSubseq<T(==)>(a: seq<T>, b: seq<T>)
    decreases |b|
  {
    if a == [] then true
    else if b == [] then false
    else (a[0] == b[0] && IsSubseq(a[1..], b[1..])) || IsSubseq(a, b[1..])
  }

  /** Filtering preserves order: its result is a subsequence of its input. */
  lemma {:induction false} FilterIsSubseq<T>(p: T -> bool, s: seq<T>)
    ensures IsSubseq(Filter(p, s), s)
    decreases |s|
  {
    if s != [] {
      FilterIsSubseq(p, s[1..]);
      var r := Filter(p, s);
      if p(s[0]) {
        assert r[0] == s[0] && r[1..] == Filter(p, s[1..]);
      } else {
        assert r == Filter(p, s[1..]);
      }
    }
  }

  lemma {:induction false} SubseqTrans<T>(a: seq<T>, b: seq<T>, c: seq<T>)
    requires IsSubseq(a, b) && IsSubseq(b, c)
    ensures IsSubseq(a, c)
    decreases |c|
  {
    if a == [] {
    } else if c == [] {
    } else if b != [] && b[0] == c[0] && IsSubseq(b[1..], c[1..]) {
      if a[0] == b[0] && IsSubseq(a[1..], b[1..]) {
        SubseqTrans(a[1..], b[1..], c[1..]);
      } else {
        SubseqTrans(a, b[1..], c[1..]);
      }
    } else {
      SubseqTrans(a, b, c[1..]);
    }
  }

  lemma {:induction false} SubseqRefl<T>(s: seq<T>)
    ensures IsSubseq(s, s)
    decreases |s|
  {
    if s != [] {
      SubseqRefl(s[1..]);
    }
  }

  /** Every element of a subsequence occurs in the whole. */
  lemma {:induction false} SubseqMembers<T>(a: seq<T>, b: seq<T>)
    requires IsSubseq(a, b)
    ensures forall i | 0 <= i < |a| :: a[i] in b
    decreases |b|
  {
    if a != [] && b != [] {
      if a[0] == b[0] && IsSubseq(a[1..], b[1..]) {
        SubseqMembers(a[1..], b[1..]);
        assert forall i | 1 <= i < |a| :: a[i] == a[1..][i - 1];
      } else {
        SubseqMembers(a, b[1..]);
      }
    }
  }

  /** Dropping one element leaves a subsequence. */
  lemma {:induction false} DropOneIsSubseq<T>(s: seq<T>, k: nat)
    requires k < |s|
    ensures IsSubseq(s[..k] + s[k + 1..], s)
    decreases k
  {
    var r := s[..k] + s[k + 1..];
    if k == 0 {
      assert r == s[1..];
      SubseqRefl(s[1..]);
    } else {
      DropOneIsSubseq(s[1..], k - 1);
      assert r[0] == s[0];
      assert r[1..] == s[1..][..k - 1] + s[1..][k..];
    }
  }

  /** `s.slice(0, n)`: the first `n` elements, or all of them when fewer. */
  function Take<T>(s: seq<T>, n: nat): (r: seq<T>)
    ensures |r| == if |s| < n then |s| else n
    ensures r == s[..|r|]
  {
    if |s| <= n then s else s[..n]
  }

  /** A prefix is a subsequence. */
  lemma {:induction false} TakeIsSubseq<T>(s: seq<T>, n: nat)
    ensures IsSubseq(Take(s, n), s)
  {
    PrefixIsSubseq(s, |Take(s, n)|);
  }

  lemma {:induction false} PrefixIsSubseq<T>(s: seq<T>, k: nat)
    requires k <= |s|
    ensures IsSubseq(s[..k], s)
    decreases |s|
  {
    if k == 0 {
    } else {
      PrefixIsSubseq(s[1..], k - 1);
      assert s[..k][1..] == s[1..][..k - 1];
    }
  }

  predicate NoDup<T(==)>(s: seq<T>) {
    forall i, j | 0 <= i < j < |s| :: s[i] != s[j]
  }

  /** Position of the first occurrence of `x` in `s`. */
  function FirstIndex<T(==)>(s: seq<T>, x: T): (k: nat)
    requires x in s
    ensures k < |s| && s[k] == x
    ensures forall j | 0 <= j < k :: s[j] != x
  {
    if s[0] == x then 0 else 1 + FirstIndex(s[1..], x)
  }

  /** The distinct elements of `s`, each once, in order of first occurrence:
      what `Array.from(set)` gives after adding the elements of `s` in order. */
  function Dedup<T(==)>(s: seq<T>): (r: seq<T>)
    ensures NoDup(r)
    ensures forall i | 0 <= i < |r| :: r[i] in s
    ensures forall i | 0 <= i < |s| :: s[i] in r
  {
    if s == [] then []
    else
      var d := Dedup(s[..|s| - 1]);
      var x := s[|s| - 1];
      assert s == s[..|s| - 1] + [x];
      if x in d then d else d + [x]
  }

  lemma FirstIndexExtend<T>(s: seq<T>, t: seq<T>, x: T)
    requires x in s
    ensures FirstIndex(s + t, x) == FirstIndex(s, x)
  {
    var k := FirstIndex(s, x);
    var k' := FirstIndex(s + t, x);
    assert (s + t)[k] == x;
    assert forall j | 0 <= j < k :: (s + t)[j] == s[j];
  }

  /** The de-duplicated elements appear in the order of their first occurrences. */
  lemma {:induction false} DedupFirstOccurrenceOrder<T>(s: seq<T>)
    ensures forall i, j | 0 <= i < j < |Dedup(s)| ::
      FirstIndex(s, Dedup(s)[i]) < FirstIndex(s, Dedup(s)[j])
    decreases |s|
  {
    if s != [] {
      var p := s[..|s| - 1];
      var x := s[|s| - 1];
      assert s == p + [x];
      DedupFirstOccurrenceOrder(p);
      var d := Dedup(p);
      AppendKeepsOrder(p, x, d);
      assert x in d <==> x in p;
    }
  }

  /** Appending an element to `p` keeps the first-occurrence order of the
      listed elements of `p`, and a new element comes after all of them. */
  lemma AppendKeepsOrder<T>(p: seq<T>, x: T, d: seq<T>)
    requires forall i | 0 <= i < |d| :: d[i] in p
    requires forall i, j | 0 <= i < j < |d| :: FirstIndex(p, d[i]) < FirstIndex(p, d[j])
    ensures forall i, j | 0 <= i < j < |d| :: FirstIndex(p + [x], d[i]) < FirstIndex(p + [x], d[j])
    ensures x !in p ==>
      forall i, j | 0 <= i < j < |d + [x]| :: FirstIndex(p + [x], (d + [x])[i]) < FirstIndex(p + [x], (d + [x])[j])
  {
    forall i | 0 <= i < |d|
      ensures FirstIndex(p + [x], d[i]) == FirstIndex(p, d[i])
    {
      FirstIndexExtend(p, [x], d[i]);
    }
    if x !in p {
      FirstIndexLast(p, x);
      var r := d + [x];
      forall i, j | 0 <= i < j < |r|
        ensures FirstIndex(p + [x], r[i]) < FirstIndex(p + [x], r[j])
      {
        assert r[i] == d[i];
        if j < |d| {
          assert r[j] == d[j];
        }
      }
    }
  }

  /** An element that only occurs last is first found there. */
  lemma FirstIndexLast<T>(p: seq<T>, x: T)
    requires x !in p
    ensures FirstIndex(p + [x], x) == |p|
  {
    var s := p + [x];
    assert forall j | 0 <= j < |p| :: s[j] == p[j];
  }
}

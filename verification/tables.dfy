/**
  The list operations every query of the query layer reduces to, over a table
  held as a sequence of rows in a fixed table order:

  - `Filter`     a WHERE clause: keep the rows a predicate accepts, in order;
  - `Page`       `OFFSET skip LIMIT limit`: drop `skip` rows, keep at most `limit`;
  - `FirstMatch` `.first()` on a filtered query: the first accepted row, if any.

  The table order stands in for the unspecified order of a query without
  `ORDER BY`; the model fixes it so that pagination is deterministic.
 */
module Tables {
  import opened Wrappers

  function Min(a: int, b: int): int {
    if a <= b then a else b
  }

  /** `sub` is obtained from `s` by deleting rows; the rows it keeps stay in table order. */
  predicate IsSubsequence<T(==)>(sub: seq<T>, s: seq<T>)
    decreases |s|
  {
    if |sub| == 0 then true
    else if |s| == 0 then false
    else (sub[0] == s[0] && IsSubsequence(sub[1..], s[1..])) || IsSubsequence(sub, s[1..])
  }

  lemma {:induction false} SubsequenceTransitive<T(!new)>(a: seq<T>, b: seq<T>, c: seq<T>)
    requires IsSubsequence(a, b) && IsSubsequence(b, c)
    ensures IsSubsequence(a, c)
    decreases |c|
  {
    if |a| == 0 {
    } else if b[0] == c[0] && IsSubsequence(b[1..], c[1..]) {
      if a[0] == b[0] && IsSubsequence(a[1..], b[1..]) {
        SubsequenceTransitive(a[1..], b[1..], c[1..]);
      } else {
        SubsequenceTransitive(a, b[1..], c[1..]);
      }
    } else {
      SubsequenceTransitive(a, b, c[1..]);
    }
  }

  /** Every contiguous slice of a table is a subsequence of it. */
  lemma {:induction false} SliceIsSubsequence<T(!new)>(s: seq<T>, lo: nat, hi: nat)
    requires lo <= hi <= |s|
    ensures IsSubsequence(s[lo..hi], s)
    decreases |s|
  {
    if lo == hi {
    } else if lo == 0 {
      SliceIsSubsequence(s[1..], 0, hi - 1);
      assert s[lo..hi][1..] == s[1..][0..hi - 1];
    } else {
      SliceIsSubsequence(s[1..], lo - 1, hi - 1);
      assert s[1..][lo - 1..hi - 1] == s[lo..hi];
    }
  }

  /** WHERE: the rows of `s` that `p` accepts, in table order. */
  function Filter<T(!new)>(s: seq<T>, p: T -> bool): (r: seq<T>)
    ensures |r| <= |s|
    ensures forall x :: x in r <==> x in s && p(x)
    ensures IsSubsequence(r, s)
    decreases |s|
  {
    if |s| == 0 then []
    else
      var rest := Filter(s[1..], p);
      assert s == [s[0]] + s[1..];
      if p(s[0]) then
        assert ([s[0]] + rest)[1..] == rest;
        [s[0]] + rest
      else
        rest
  }

  /** A WHERE keeps every copy of an accepted row and no copy of a rejected one. */
  lemma {:induction false} FilterCounts<T(!new)>(s: seq<T>, p: T -> bool)
    ensures forall x :: multiset(Filter(s, p))[x] == if p(x) then multiset(s)[x] else 0
    decreases |s|
  {
    if |s| > 0 {
      FilterCounts(s[1..], p);
      assert s == [s[0]] + s[1..];
      assert multiset(s) == multiset{s[0]} + multiset(s[1..]);
    }
  }

  /** Two predicates that agree on every row of a table select the same rows. */
  lemma {:induction false} FilterCongruent<T(!new)>(s: seq<T>, p: T -> bool, q: T -> bool)
    requires forall x :: x in s ==> p(x) == q(x)
    ensures Filter(s, p) == Filter(s, q)
    decreases |s|
  {
    if |s| > 0 {
      assert s[0] in s;
      forall x | x in s[1..] ensures p(x) == q(x) {
        assert x in s;
      }
      FilterCongruent(s[1..], p, q);
    }
  }

  /** A predicate that accepts every row of a table filters nothing out. */
  lemma {:induction false} FilterKeepsAll<T(!new)>(s: seq<T>, p: T -> bool)
    requires forall x :: x in s ==> p(x)
    ensures Filter(s, p) == s
    decreases |s|
  {
    if |s| > 0 {
      assert s[0] in s;
      forall x | x in s[1..] ensures p(x) {
        assert x in s;
      }
      FilterKeepsAll(s[1..], p);
      assert s == [s[0]] + s[1..];
    }
  }

  function And<T(!new)>(p: T -> bool, q: T -> bool): T -> bool {
    x => p(x) && q(x)
  }

  /** Chaining two `.filter(...)` calls is the same as filtering once by their conjunction. */
  lemma {:induction false} FilterThenFilter<T(!new)>(s: seq<T>, p: T -> bool, q: T -> bool)
    ensures Filter(Filter(s, p), q) == Filter(s, And(p, q))
    decreases |s|
  {
    if |s| > 0 {
      FilterThenFilter(s[1..], p, q);
      if p(s[0]) {
        assert Filter(s, p) == [s[0]] + Filter(s[1..], p);
        assert Filter(s, p)[0] == s[0];
        assert Filter(s, p)[1..] == Filter(s[1..], p);
      }
    }
  }

  /** The predicate `p` when `applied`, and the predicate that accepts every row otherwise. */
  function When<T(!new)>(applied: bool, p: T -> bool): T -> bool {
    x => !applied || p(x)
  }

  /** `if applied: query = query.filter(p)`: the rows of `s` that pass `p` when the filter is applied. */
  function Where<T(!new)>(s: seq<T>, applied: bool, p: T -> bool): (r: seq<T>)
    ensures forall x :: x in r <==> x in s && (applied ==> p(x))
    ensures !applied ==> r == s
  {
    if applied then Filter(s, p) else s
  }

  /** A conditional filter is a plain filter by the conditional predicate. */
  lemma WhereIsFilter<T(!new)>(s: seq<T>, applied: bool, p: T -> bool)
    ensures Where(s, applied, p) == Filter(s, When(applied, p))
  {
    if applied {
      FilterCongruent(s, p, When(applied, p));
    } else {
      FilterKeepsAll(s, When(applied, p));
    }
  }

  /** Two chained conditional filters select what one filter by both conditions selects. */
  lemma WhereThenWhere<T(!new)>(s: seq<T>, a: bool, p: T -> bool, b: bool, q: T -> bool)
    ensures Where(Where(s, a, p), b, q) == Filter(s, And(When(a, p), When(b, q)))
  {
    WhereIsFilter(s, a, p);
    WhereIsFilter(Where(s, a, p), b, q);
    FilterThenFilter(s, When(a, p), When(b, q));
  }

  /** OFFSET skip LIMIT limit: the rows of `s` from position `skip` on, at most `limit` of them. */
  function Page<T(!new)>(s: seq<T>, skip: nat, limit: nat): (r: seq<T>)
    ensures |r| <= limit
    ensures skip >= |s| ==> |r| == 0
    ensures skip < |s| ==> |r| == Min(limit, |s| - skip)
    ensures forall i :: 0 <= i < |r| ==> skip + i < |s| && r[i] == s[skip + i]
    ensures IsSubsequence(r, s)
  {
    if skip >= |s| then []
    else if limit >= |s| - skip then
      SliceIsSubsequence(s, skip, |s|);
      assert s[skip..|s|] == s[skip..];
      s[skip..]
    else
      SliceIsSubsequence(s, skip, skip + limit);
      s[skip..skip + limit]
  }

  /** Two consecutive pagination windows make up the window that spans both. */
  lemma PageCompose<T(!new)>(s: seq<T>, skip: nat, a: nat, b: nat)
    ensures Page(s, skip, a) + Page(s, skip + a, b) == Page(s, skip, a + b)
  {
    var first, second, whole := Page(s, skip, a), Page(s, skip + a, b), Page(s, skip, a + b);
    assert |second| > 0 ==> |first| == a;
    assert |first + second| == |whole|;
    forall i | 0 <= i < |whole| ensures (first + second)[i] == whole[i] {
      if i >= |first| {
        assert second[i - |first|] == s[skip + a + (i - |first|)];
      }
    }
  }

  /** `PageCompose` for a listing that, for every window, is that window of the same filtered table `s`. */
  lemma ListingCompose<T(!new)>(listing: (nat, nat) -> seq<T>, s: seq<T>, skip: nat, a: nat, b: nat)
    requires forall sk: nat, l: nat :: listing(sk, l) == Page(s, sk, l)
    ensures listing(skip, a) + listing(skip + a, b) == listing(skip, a + b)
  {
    PageCompose(s, skip, a, b);
  }

  /** A window that starts at the top and is as long as the table returns the whole table. */
  lemma PageWhole<T(!new)>(s: seq<T>, limit: nat)
    requires limit >= |s|
    ensures Page(s, 0, limit) == s
  {
    assert |Page(s, 0, limit)| == |s|;
  }

  /** The row of `s` at position `i` satisfies `p` and no earlier row does. */
  ghost predicate IsFirstMatch<T(!new)>(s: seq<T>, p: T -> bool, x: T) {
    exists i :: 0 <= i < |s| && s[i] == x && p(x) && forall j :: 0 <= j < i ==> !p(s[j])
  }

  /** The position of the first row `p` accepts, if any. */
  function FirstIndex<T(!new)>(s: seq<T>, p: T -> bool): (r: Option<nat>)
    ensures r.None? <==> forall i :: 0 <= i < |s| ==> !p(s[i])
    ensures r.Some? ==> r.value < |s| && p(s[r.value]) && forall j :: 0 <= j < r.value ==> !p(s[j])
    decreases |s|
  {
    if |s| == 0 then None
    else if p(s[0]) then Some(0)
    else
      match FirstIndex(s[1..], p)
      case None =>
        assert forall i :: 1 <= i < |s| ==> s[i] == s[1..][i - 1];
        None
      case Some(k) =>
        assert forall j :: 1 <= j < k + 1 ==> s[j] == s[1..][j - 1];
        Some(k + 1)
  }

  /** `.first()`: the first row in table order that `p` accepts, or `None` when no row does. */
  function FirstMatch<T(!new)>(s: seq<T>, p: T -> bool): (r: Option<T>)
    ensures r.None? <==> forall x :: x in s ==> !p(x)
    ensures r.Some? ==> r.value in s && p(r.value) && IsFirstMatch(s, p, r.value)
  {
    match FirstIndex(s, p)
    case None => None
    case Some(i) => Some(s[i])
  }

  /** The single lookup returns the head of the list the same predicate selects. */
  lemma {:induction false} FirstMatchIsFilterHead<T(!new)>(s: seq<T>, p: T -> bool)
    ensures FirstMatch(s, p) == if |Filter(s, p)| == 0 then None else Some(Filter(s, p)[0])
    decreases |s|
  {
    if |s| > 0 && !p(s[0]) {
      FirstMatchIsFilterHead(s[1..], p);
      assert FirstIndex(s, p) == match FirstIndex(s[1..], p) case None => None case Some(k) => Some(k + 1);
    }
  }

  /** Two predicates that agree on every row of a table find the same first row. */
  lemma FirstMatchCongruent<T(!new)>(s: seq<T>, p: T -> bool, q: T -> bool)
    requires forall x :: x in s ==> p(x) == q(x)
    ensures FirstMatch(s, p) == FirstMatch(s, q)
  {
    FirstMatchIsFilterHead(s, p);
    FirstMatchIsFilterHead(s, q);
    FilterCongruent(s, p, q);
  }

  /** Looking up the first row of a filtered table is one lookup by both conditions. */
  lemma FirstMatchOfFilter<T(!new)>(s: seq<T>, p: T -> bool, q: T -> bool)
    ensures FirstMatch(Filter(s, p), q) == FirstMatch(s, And(p, q))
  {
    FirstMatchIsFilterHead(Filter(s, p), q);
    FirstMatchIsFilterHead(s, And(p, q));
    FilterThenFilter(s, p, q);
  }

  /** One column of a table: the value `f` projects from each row, row by row. */
  function Column<T, K>(s: seq<T>, f: T -> K): (r: seq<K>)
    ensures |r| == |s|
    ensures forall i :: 0 <= i < |s| ==> r[i] == f(s[i])
  {
    seq(|s|, i requires 0 <= i < |s| => f(s[i]))
  }

  /** The set of rows that occur in a table. */
  function Elements<T(!new)>(s: seq<T>): (r: set<T>)
    ensures |r| <= |s|
    ensures forall x :: x in r <==> x in s
    decreases |s|
  {
    if |s| == 0 then {}
    else
      assert s == [s[0]] + s[1..];
      {s[0]} + Elements(s[1..])
  }

  lemma SubsetCardinality<T>(a: set<T>, b: set<T>)
    requires a <= b
    ensures |a| <= |b|
  {
    assert b == a + (b - a);
  }

  /** No value occurs twice in `s`. */
  predicate Distinct<T(==)>(s: seq<T>) {
    forall i, j :: 0 <= i < j < |s| ==> s[i] != s[j]
  }

  /** A table without repeated values has as many distinct values as rows. */
  lemma {:induction false} DistinctElements<T(!new)>(s: seq<T>)
    requires Distinct(s)
    ensures |Elements(s)| == |s|
    decreases |s|
  {
    if |s| > 0 {
      DistinctElements(s[1..]);
      assert s[0] !in Elements(s[1..]);
    }
  }
}

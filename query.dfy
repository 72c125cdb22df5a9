/** The handful of table queries the services issue through the ORM
    (`findFirst`, `findMany` with `where`, `count`, `orderBy`, `skip`/`take`,
    `_sum`), stated over an in-memory table held as a sequence of rows. */
module Query {
  import opened Common

  /** Index of the first row satisfying `p` (the row `findFirst` returns). */
  function FindFirst<T>(s: seq<T>, p: T -> bool): (r: Option<nat>)
    ensures r.Some? ==> r.value < |s| && p(s[r.value])
    ensures r.Some? ==> forall j :: 0 <= j < r.value ==> !p(s[j])
    ensures r.None? <==> forall j :: 0 <= j < |s| ==> !p(s[j])
  {
    if s == [] then None
    else if p(s[0]) then Some(0)
    else match FindFirst(s[1..], p)
      case None => None
      case Some(i) => Some(i + 1)
  }

  /** The rows satisfying `p`, in table order (`findMany({ where })`). */
  function Where<T>(s: seq<T>, p: T -> bool): (r: seq<T>)
    ensures |r| <= |s|
    ensures forall i :: 0 <= i < |r| ==> r[i] in s && p(r[i])
    ensures forall i :: 0 <= i < |s| && p(s[i]) ==> s[i] in r
  {
    if s == [] then []
    else if p(s[0]) then [s[0]] + Where(s[1..], p)
    else Where(s[1..], p)
  }

  /** `count({ where })`. */
  function Count<T>(s: seq<T>, p: T -> bool): nat {
    |Where(s, p)|
  }

  /** Sum of `f` over the rows (`reduce((sum, r) => sum + f(r), 0)`). */
  function Sum<T>(s: seq<T>, f: T -> real): real {
    if s == [] then 0.0 else f(s[0]) + Sum(s[1..], f)
  }

  /** `aggregate({ _sum })`: the ORM yields null when no row matches. */
  function AggregateSum<T>(s: seq<T>, f: T -> real): (r: Option<real>)
    ensures r.None? <==> s == []
  {
    if s == [] then None else Some(Sum(s, f))
  }

  lemma {:induction false} CountBounded<T>(s: seq<T>, p: T -> bool)
    ensures Count(s, p) <= |s|
    ensures Count(s, p) == |s| <==> forall i :: 0 <= i < |s| ==> p(s[i])
  {
    if s != [] {
      CountBounded(s[1..], p);
      assert forall i :: 1 <= i < |s| ==> s[1..][i - 1] == s[i];
    }
  }

  /** Counting rows of two disjoint kinds is counting rows of either kind. */
  lemma {:induction false} CountDisjointUnion<T>(s: seq<T>, p: T -> bool, q: T -> bool, u: T -> bool)
    requires forall x :: !(p(x) && q(x))
    requires forall x :: u(x) <==> p(x) || q(x)
    ensures Count(s, u) == Count(s, p) + Count(s, q)
  {
    if s != [] {
      CountDisjointUnion(s[1..], p, q, u);
    }
  }

  /** Rows matching a stronger condition are never more numerous. */
  lemma {:induction false} CountMonotone<T>(s: seq<T>, p: T -> bool, q: T -> bool)
    requires forall x :: p(x) ==> q(x)
    ensures Count(s, p) <= Count(s, q)
  {
    if s != [] {
      CountMonotone(s[1..], p, q);
    }
  }

  /** Filtering a table with one more row at its end. */
  lemma {:induction false} WhereAppend<T>(s: seq<T>, x: T, p: T -> bool)
    ensures Where(s + [x], p) == Where(s, p) + (if p(x) then [x] else [])
  {
    if s == [] {
      assert s + [x] == [x];
    } else {
      assert (s + [x])[0] == s[0];
      assert (s + [x])[1..] == s[1..] + [x];
      WhereAppend(s[1..], x, p);
    }
  }

  /** `key` rises strictly along `s`. */
  predicate Rising<T>(s: seq<T>, key: T -> int) {
    forall i, j :: 0 <= i < j < |s| ==> key(s[i]) < key(s[j])
  }

  lemma RisingTail<T>(s: seq<T>, key: T -> int)
    requires Rising(s, key) && s != []
    ensures Rising(s[1..], key)
    ensures forall k :: 1 <= k < |s| ==> key(s[0]) < key(s[k])
  {
    forall i, j | 0 <= i < j < |s[1..]| ensures key(s[1..][i]) < key(s[1..][j]) {
      assert s[1..][i] == s[i + 1] && s[1..][j] == s[j + 1];
    }
  }

  lemma RisingCons<T>(x: T, rest: seq<T>, key: T -> int)
    requires Rising(rest, key) && forall k :: 0 <= k < |rest| ==> key(x) < key(rest[k])
    ensures Rising([x] + rest, key)
  {
    var w := [x] + rest;
    forall i, j | 0 <= i < j < |w| ensures key(w[i]) < key(w[j]) {
      assert w[j] == rest[j - 1];
      if i > 0 {
        assert w[i] == rest[i - 1];
      }
    }
  }

  /** Filtering keeps rows in table order: a key rising along the table
      still rises along the filtered rows. */
  lemma {:induction false} WhereKeepsOrder<T>(s: seq<T>, p: T -> bool, key: T -> int)
    requires Rising(s, key)
    ensures Rising(Where(s, p), key)
  {
    if s != [] {
      RisingTail(s, key);
      WhereKeepsOrder(s[1..], p, key);
      var rest := Where(s[1..], p);
      if p(s[0]) {
        forall k | 0 <= k < |rest| ensures key(s[0]) < key(rest[k]) {
          var j :| 0 <= j < |s[1..]| && s[1..][j] == rest[k];
          assert s[j + 1] == rest[k];
        }
        RisingCons(s[0], rest, key);
      }
    }
  }

  /** The rows in the opposite order (`orderBy: { createdAt: 'desc' }` over
      a table kept in insertion order). */
  function Reversed<T>(s: seq<T>): (r: seq<T>)
    ensures |r| == |s|
    ensures forall i :: 0 <= i < |s| ==> r[i] == s[|s| - 1 - i]
  {
    if s == [] then [] else [s[|s| - 1]] + Reversed(s[..|s| - 1])
  }

  /** Reversing a table with one more row at its end puts that row first. */
  lemma ReversedSnoc<T>(s: seq<T>, x: T)
    ensures Reversed(s + [x]) == [x] + Reversed(s)
  {
    var l := Reversed(s + [x]);
    var r := [x] + Reversed(s);
    forall i | 0 <= i < |l| ensures l[i] == r[i] {
      if i > 0 {
        assert l[i] == (s + [x])[|s| - i];
      }
    }
  }

  /** Reading a table backwards loses none of its rows. */
  lemma ReversedKeepsRows<T>(s: seq<T>)
    ensures forall x :: x in s ==> x in Reversed(s)
  {
    var r := Reversed(s);
    forall x | x in s ensures x in r {
      var j :| 0 <= j < |s| && s[j] == x;
      assert r[|s| - 1 - j] == x;
    }
  }

  /** A sum over a filter splits over appended tables. */
  lemma {:induction false} SumAppend<T>(a: seq<T>, b: seq<T>, f: T -> real)
    ensures Sum(a + b, f) == Sum(a, f) + Sum(b, f)
  {
    if a != [] {
      assert (a + b)[0] == a[0];
      assert (a + b)[1..] == a[1..] + b;
      SumAppend(a[1..], b, f);
      assert Sum(a + b, f) == f(a[0]) + Sum(a[1..] + b, f);
    } else {
      assert a + b == b;
    }
  }

  /** Filtering twice is filtering once by both conditions. */
  lemma {:induction false} WhereWhere<T>(s: seq<T>, p: T -> bool, q: T -> bool, pq: T -> bool)
    requires forall x :: pq(x) <==> p(x) && q(x)
    ensures Where(Where(s, p), q) == Where(s, pq)
  {
    if s != [] {
      WhereWhere(s[1..], p, q, pq);
      if p(s[0]) {
        var w := Where(s, p);
        assert w == [s[0]] + Where(s[1..], p);
        assert w[0] == s[0] && w[1..] == Where(s[1..], p);
      }
    }
  }

  /** Summing a difference row by row is the difference of the sums. */
  lemma {:induction false} SumDifference<T>(s: seq<T>, f: T -> real, g: T -> real, d: T -> real)
    requires forall x :: d(x) == f(x) - g(x)
    ensures Sum(s, d) == Sum(s, f) - Sum(s, g)
  {
    if s != [] {
      SumDifference(s[1..], f, g, d);
    }
  }

  /** Sums of two functions that agree on every row are equal. */
  lemma {:induction false} SumPointwise<T>(s: seq<T>, f: T -> real, g: T -> real)
    requires forall i :: 0 <= i < |s| ==> f(s[i]) == g(s[i])
    ensures Sum(s, f) == Sum(s, g)
  {
    if s != [] {
      assert forall i :: 1 <= i < |s| ==> s[1..][i - 1] == s[i];
      SumPointwise(s[1..], f, g);
    }
  }

  lemma {:induction false} SumNonNegative<T>(s: seq<T>, f: T -> real)
    requires forall i :: 0 <= i < |s| ==> f(s[i]) >= 0.0
    ensures Sum(s, f) >= 0.0
  {
    if s != [] {
      assert forall i :: 1 <= i < |s| ==> s[1..][i - 1] == s[i];
      SumNonNegative(s[1..], f);
    }
  }

  // ---------------------------------------------------------------------
  // orderBy: a stable insertion sort under a total preorder
  // ---------------------------------------------------------------------

  ghost predicate TotalPreorder<T(!new)>(le: (T, T) -> bool) {
    && (forall a, b :: le(a, b) || le(b, a))
    && (forall a, b, c :: le(a, b) && le(b, c) ==> le(a, c))
  }

  predicate SortedBy<T>(s: seq<T>, le: (T, T) -> bool) {
    forall i, j :: 0 <= i < j < |s| ==> le(s[i], s[j])
  }

  /** A row placed before a sorted table whose every row it precedes
      keeps the table sorted. */
  lemma ConsSorted<T>(y: T, t: seq<T>, le: (T, T) -> bool)
    requires SortedBy(t, le)
    requires forall k :: 0 <= k < |t| ==> le(y, t[k])
    ensures SortedBy([y] + t, le)
  {
    forall i, j | 0 <= i < j < |[y] + t| ensures le(([y] + t)[i], ([y] + t)[j]) {
      if i > 0 { assert ([y] + t)[i] == t[i - 1]; }
      assert ([y] + t)[j] == t[j - 1];
    }
  }

  /** The head of a sorted table precedes `x` and every row of the rest,
      so it precedes whatever rows are drawn from those. */
  lemma HeadPrecedes<T(!new)>(x: T, s: seq<T>, t: seq<T>, le: (T, T) -> bool)
    requires TotalPreorder(le) && SortedBy(s, le) && s != [] && le(s[0], x)
    requires forall k :: 0 <= k < |t| ==> t[k] == x || t[k] in s[1..]
    ensures forall k :: 0 <= k < |t| ==> le(s[0], t[k])
  {
    forall k | 0 <= k < |t| ensures le(s[0], t[k]) {
      if t[k] != x {
        var j :| 0 <= j < |s[1..]| && s[1..][j] == t[k];
        assert s[j + 1] == t[k];
      }
    }
  }

  function Insert<T(!new)>(x: T, s: seq<T>, le: (T, T) -> bool): (r: seq<T>)
    requires TotalPreorder(le) && SortedBy(s, le)
    ensures SortedBy(r, le)
    ensures multiset(r) == multiset(s) + multiset{x}
    ensures forall k :: 0 <= k < |r| ==> r[k] == x || r[k] in s
  {
    if s == [] then [x]
    else if le(x, s[0]) then
      assert forall j :: 0 <= j < |s| ==> le(x, s[j]) by {
        forall j | 0 <= j < |s| ensures le(x, s[j]) {
          if j > 0 { assert le(s[0], s[j]); }
        }
      }
      ConsSorted(x, s, le);
      [x] + s
    else
      var t := Insert(x, s[1..], le);
      assert s == [s[0]] + s[1..];
      HeadPrecedes(x, s, t, le);
      ConsSorted(s[0], t, le);
      [s[0]] + t
  }

  /** `orderBy`: the same rows, sorted under `le`. */
  function OrderBy<T(!new)>(s: seq<T>, le: (T, T) -> bool): (r: seq<T>)
    requires TotalPreorder(le)
    ensures SortedBy(r, le)
    ensures multiset(r) == multiset(s)
    ensures |r| == |s|
  {
    if s == [] then []
    else
      assert s == [s[0]] + s[1..];
      Insert(s[0], OrderBy(s[1..], le), le)
  }

  /** A row of a sorted table that the first page leaves out comes after
      every row of that page, which is full. */
  lemma PageHead<T>(s: seq<T>, le: (T, T) -> bool, n: nat, x: T)
    requires SortedBy(s, le) && x in s && x !in Page(s, 0, n)
    ensures |Page(s, 0, n)| == n
    ensures forall i :: 0 <= i < n ==> le(s[i], x)
  {
  }

  /** `skip` then `take`. */
  function Page<T>(s: seq<T>, skip: nat, take: nat): (r: seq<T>)
    ensures |r| <= take
    ensures |r| == if skip >= |s| then 0 else if skip + take <= |s| then take else |s| - skip
    ensures forall i :: 0 <= i < |r| ==> r[i] == s[skip + i]
  {
    if skip >= |s| then []
    else if skip + take <= |s| then s[skip..skip + take]
    else s[skip..]
  }

  /** The first page holds no row more often than the table does. */
  lemma FirstPageSubMultiset<T>(s: seq<T>, take: nat)
    ensures multiset(Page(s, 0, take)) <= multiset(s)
  {
    var r := Page(s, 0, take);
    assert r == s[..|r|];
    assert s == r + s[|r|..];
  }

  /** A page of a table read newest first holds rows of the table. */
  lemma NewestFirstRows<T>(s: seq<T>, skip: nat, take: nat)
    ensures var r := Page(Reversed(s), skip, take);
      forall i :: 0 <= i < |r| ==> r[i] == s[|s| - 1 - (skip + i)] && r[i] in s
  {
  }

  /** Page `skip`/`take` of a table read newest first: its rows are the
      table's rows counted back from the last one, starting `skip` rows in. */
  function NewestFirstWindow<T>(s: seq<T>, skip: nat, take: nat): (r: seq<T>)
    ensures |r| == if skip >= |s| then 0 else if skip + take <= |s| then take else |s| - skip
    ensures forall i :: 0 <= i < |r| ==> r[i] == s[|s| - 1 - (skip + i)] && r[i] in s
  {
    NewestFirstRows(s, skip, take);
    Page(Reversed(s), skip, take)
  }

  /** On a page of a table read newest first, a key rising along the table
      is falling. */
  lemma NewestFirstPage<T>(s: seq<T>, skip: nat, take: nat, key: T -> int)
    requires Rising(s, key)
    ensures var r := Page(Reversed(s), skip, take);
      && (forall i :: 0 <= i < |r| ==> r[i] in s)
      && (forall i, j :: 0 <= i < j < |r| ==> key(r[i]) > key(r[j]))
  {
    NewestFirstRows(s, skip, take);
  }
}

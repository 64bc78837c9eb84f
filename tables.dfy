/** The pandas table operations the scripts rely on, on sequences of rows:
    boolean-mask selection, `unique()` followed by `sort()`, `groupby().size()`
    and the inner `merge`. */
module Tables {

  /** `r` keeps some of the rows of `s`, in their original order. */
  predicate SubseqOf<T(==,!new)>(r: seq<T>, s: seq<T>)
    decreases |s|
  {
    if r == [] then true
    else if s == [] then false
    else (r[0] == s[0] && SubseqOf(r[1..], s[1..])) || SubseqOf(r, s[1..])
  }

  /** A boolean-mask selection `df[mask]`: the rows of `s` that satisfy `p`,
      in their original order, every copy of a repeated row included. */
  function Select<T(==,!new)>(s: seq<T>, p: T -> bool): (r: seq<T>)
    ensures |r| <= |s|
    ensures forall x :: x in r <==> x in s && p(x)
    ensures SubseqOf(r, s)
    ensures forall x :: multiset(r)[x] == if p(x) then multiset(s)[x] else 0
  {
    if s == [] then []
    else
      assert s == [s[0]] + s[1..];
      if p(s[0]) then [s[0]] + Select(s[1..], p)
      else Select(s[1..], p)
  }

  /** A mask that holds on every row keeps the whole table. */
  lemma {:induction false} SelectAll<T(!new)>(s: seq<T>, p: T -> bool)
    requires forall x :: x in s ==> p(x)
    ensures Select(s, p) == s
  {
    if s != [] {
      SelectAll(s[1..], p);
    }
  }

  /** Two masks applied one after the other select what their conjunction selects. */
  lemma {:induction false} SelectSelect<T(!new)>(s: seq<T>, p: T -> bool, q: T -> bool, pq: T -> bool)
    requires forall x :: pq(x) == (p(x) && q(x))
    ensures Select(Select(s, p), q) == Select(s, pq)
  {
    if s != [] {
      SelectSelect(s[1..], p, q, pq);
    }
  }

  /** Masks that agree on every row of the table select the same rows. */
  lemma {:induction false} SelectExt<T(!new)>(s: seq<T>, p: T -> bool, q: T -> bool)
    requires forall x :: x in s ==> p(x) == q(x)
    ensures Select(s, p) == Select(s, q)
  {
    if s != [] {
      assert s[0] in s;
      assert forall x :: x in s[1..] ==> x in s;
      SelectExt(s[1..], p, q);
    }
  }

  /** Selecting rows keeps keys that were distinct distinct. */
  lemma {:induction false} SelectKeepsDistinctKeys<T(!new)>(s: seq<T>, p: T -> bool, k: T -> int)
    requires forall i, j :: 0 <= i < j < |s| ==> k(s[i]) != k(s[j])
    ensures forall i, j :: 0 <= i < j < |Select(s, p)| ==> k(Select(s, p)[i]) != k(Select(s, p)[j])
  {
    if s != [] {
      var t := Select(s[1..], p);
      SelectKeepsDistinctKeys(s[1..], p, k);
      if p(s[0]) {
        var r := [s[0]] + t;
        assert Select(s, p) == r;
        forall j | 1 <= j < |r|
          ensures k(r[0]) != k(r[j])
        {
          assert r[j] == t[j - 1] && t[j - 1] in s[1..];
          var m :| 0 <= m < |s[1..]| && s[1..][m] == r[j];
          assert s[m + 1] == r[j];
        }
      }
    }
  }

  predicate Distinct<T(==,!new)>(s: seq<T>)
  {
    forall i, j :: 0 <= i < j < |s| ==> s[i] != s[j]
  }

  predicate StrictlySorted(s: seq<int>)
  {
    forall i, j :: 0 <= i < j < |s| ==> s[i] < s[j]
  }

  /** Adds `x` to an ascending list of distinct values, unless it is there already. */
  function InsertUnique(r: seq<int>, x: int): (r': seq<int>)
    requires StrictlySorted(r)
    ensures StrictlySorted(r')
    ensures forall y :: y in r' <==> y in r || y == x
  {
    if r == [] then [x]
    else if x < r[0] then [x] + r
    else if x == r[0] then r
    else
      var t := InsertUnique(r[1..], x);
      assert forall y :: y in t ==> r[0] < y by {
        forall y | y in t && y != x
          ensures r[0] < y
        {
          var k :| 0 <= k < |r[1..]| && r[1..][k] == y;
          assert y == r[k + 1];
        }
      }
      assert r == [r[0]] + r[1..];
      var u := [r[0]] + t;
      assert StrictlySorted(u) by {
        forall i, j | 0 <= i < j < |u|
          ensures u[i] < u[j]
        {
          assert u[j] == t[j - 1] && t[j - 1] in t;
        }
      }
      u
  }

  /** The distinct values of a column in ascending order: what
      `col.unique().tolist()` followed by `.sort()` leaves, and the key order
      of a `groupby`. */
  function SortedDistinct(s: seq<int>): (r: seq<int>)
    ensures StrictlySorted(r)
    ensures forall x :: x in r <==> x in s
  {
    if s == [] then [] else InsertUnique(SortedDistinct(s[..|s| - 1]), s[|s| - 1])
  }

  /** An ascending list of distinct values is determined by its elements. */
  lemma {:induction false} StrictlySortedUnique(a: seq<int>, b: seq<int>)
    requires StrictlySorted(a) && StrictlySorted(b)
    requires forall x :: x in a <==> x in b
    ensures a == b
  {
    if a != [] && b != [] {
      assert a[0] in a && b[0] in b;
      assert a[0] in b;
      assert b[0] in a;
      assert a[0] == b[0];
      forall x
        ensures x in a[1..] <==> x in b[1..]
      {
        if x in a[1..] {
          assert x in b;
          assert x != b[0];
        }
        if x in b[1..] {
          assert x in a;
          assert x != a[0];
        }
      }
      StrictlySortedUnique(a[1..], b[1..]);
      assert a == [a[0]] + a[1..] && b == [b[0]] + b[1..];
    } else {
      HeadIn(a);
      HeadIn(b);
    }
  }

  lemma HeadIn<T>(s: seq<T>)
    ensures s != [] ==> s[0] in s
  {
  }

  /** The (key, size) pairs of `groupby(key).size()` for the keys `ks`. */
  function Tally<T(==,!new)>(ks: seq<T>, s: seq<T>): (r: seq<(T, nat)>)
    ensures |r| == |ks|
    ensures forall i :: 0 <= i < |ks| ==> r[i] == (ks[i], multiset(s)[ks[i]])
  {
    if ks == [] then [] else [(ks[0], multiset(s)[ks[0]])] + Tally(ks[1..], s)
  }

  /** The sum of the sizes of a tally. */
  function Total<T>(pairs: seq<(T, nat)>): nat
  {
    if pairs == [] then 0 else pairs[0].1 + Total(pairs[1..])
  }

  /** Appending one row adds one to the size of its key's group, if that key
      is tallied. */
  lemma {:induction false} TallySnoc<T(!new)>(ks: seq<T>, s: seq<T>, x: T)
    ensures Total(Tally(ks, s + [x])) == Total(Tally(ks, s)) + multiset(ks)[x]
  {
    if ks != [] {
      TallySnoc(ks[1..], s, x);
      assert ks == [ks[0]] + ks[1..];
    }
  }

  lemma {:induction false} DistinctOnce<T(!new)>(ks: seq<T>, x: T)
    requires Distinct(ks) && x in ks
    ensures multiset(ks)[x] == 1
  {
    assert ks == [ks[0]] + ks[1..];
    if ks[0] == x {
      assert x !in ks[1..];
    } else {
      DistinctOnce(ks[1..], x);
    }
  }

  /** A value found at two positions occurs at least twice. */
  lemma TwoOccurrences<T>(s: seq<T>, a: nat, b: nat)
    requires a < b < |s| && s[a] == s[b]
    ensures multiset(s)[s[a]] >= 2
  {
    assert s == s[..b] + s[b..];
    assert s[a] in s[..b];
    assert s[b..] == [s[b]] + s[b + 1..];
  }

  /** Groups over distinct keys that cover every row have sizes summing to the
      number of rows. */
  lemma {:induction false} TallyTotal<T(!new)>(ks: seq<T>, s: seq<T>)
    requires Distinct(ks)
    requires forall x :: x in s ==> x in ks
    ensures Total(Tally(ks, s)) == |s|
  {
    if s != [] {
      var s', x := s[..|s| - 1], s[|s| - 1];
      assert s == s' + [x];
      TallySnoc(ks, s', x);
      DistinctOnce(ks, x);
      TallyTotal(ks, s');
    } else {
      EmptyTally(ks, s);
    }
  }

  lemma {:induction false} EmptyTally<T(!new)>(ks: seq<T>, s: seq<T>)
    requires s == []
    ensures Total(Tally(ks, s)) == 0
  {
    if ks != [] {
      EmptyTally(ks[1..], s);
    }
  }

  /** `df.groupby(key).size()` over a column of keys: one pair per distinct
      key, keys ascending, each with the number of rows holding it. */
  function GroupSizes(keys: seq<int>): (r: seq<(int, nat)>)
    ensures forall i, j :: 0 <= i < j < |r| ==> r[i].0 < r[j].0
    ensures forall k :: k in keys <==> exists i :: 0 <= i < |r| && r[i].0 == k
    ensures forall i :: 0 <= i < |r| ==> 1 <= r[i].1 == multiset(keys)[r[i].0]
  {
    var ks := SortedDistinct(keys);
    var r := Tally(ks, keys);
    forall i | 0 <= i < |r|
      ensures 1 <= r[i].1 == multiset(keys)[r[i].0]
    {
      assert r[i].0 == ks[i] && ks[i] in ks;
      assert r[i].0 in multiset(keys);
    }
    forall k | k in keys
      ensures exists i :: 0 <= i < |r| && r[i].0 == k
    {
      var i :| 0 <= i < |ks| && ks[i] == k;
      assert r[i].0 == k;
    }
    forall i | 0 <= i < |r|
      ensures r[i].0 in keys
    {
      assert r[i].0 == ks[i] && ks[i] in ks;
    }
    r
  }

  /** The sizes of `groupby(key).size()` add up to the number of rows. */
  lemma GroupSizesTotal(keys: seq<int>)
    ensures Total(GroupSizes(keys)) == |keys|
  {
    TallyTotal(SortedDistinct(keys), keys);
  }

  /** The rows of `right` whose key equals that of `l`, each paired with `l`. */
  function MatchesOf<L(!new), R(==,!new)>(l: L, right: seq<R>, lk: L -> int, rk: R -> int): (r: seq<(L, R)>)
    ensures forall p :: p in r <==> p.0 == l && p.1 in right && rk(p.1) == lk(l)
  {
    if right == [] then []
    else (if rk(right[0]) == lk(l) then [(l, right[0])] else []) + MatchesOf(l, right[1..], lk, rk)
  }

  /** `left.merge(right, on=key, how='inner')`: every pair of rows whose keys
      match, in the order of `left` and, within one left row, of `right`. */
  function InnerJoin<L(==,!new), R(==,!new)>(left: seq<L>, right: seq<R>, lk: L -> int, rk: R -> int): (r: seq<(L, R)>)
    ensures forall p :: p in r <==> p.0 in left && p.1 in right && lk(p.0) == rk(p.1)
  {
    if left == [] then []
    else MatchesOf(left[0], right, lk, rk) + InnerJoin(left[1..], right, lk, rk)
  }

  /** When the keys of `right` are distinct, a left row meets at most one
      right row. */
  lemma {:induction false} MatchesOfUnique<L(!new), R(!new)>(l: L, right: seq<R>, lk: L -> int, rk: R -> int)
    requires forall i, j :: 0 <= i < j < |right| ==> rk(right[i]) != rk(right[j])
    ensures |MatchesOf(l, right, lk, rk)| <= 1
  {
    if right != [] {
      MatchesOfUnique(l, right[1..], lk, rk);
      if rk(right[0]) == lk(l) {
        forall j | 0 <= j < |right[1..]|
          ensures rk(right[1..][j]) != lk(l)
        {
          assert right[1..][j] == right[j + 1];
        }
        NoMatches(l, right[1..], lk, rk);
      }
    }
  }

  lemma {:induction false} NoMatches<L(!new), R(!new)>(l: L, right: seq<R>, lk: L -> int, rk: R -> int)
    requires forall j :: 0 <= j < |right| ==> rk(right[j]) != lk(l)
    ensures MatchesOf(l, right, lk, rk) == []
  {
    if right != [] {
      NoMatches(l, right[1..], lk, rk);
    }
  }

  /** With distinct keys on the right, the merge does not fan out: it has at
      most as many rows as `left`. */
  lemma {:induction false} InnerJoinNoFanOut<L(!new), R(!new)>(left: seq<L>, right: seq<R>, lk: L -> int, rk: R -> int)
    requires forall i, j :: 0 <= i < j < |right| ==> rk(right[i]) != rk(right[j])
    ensures |InnerJoin(left, right, lk, rk)| <= |left|
  {
    if left != [] {
      MatchesOfUnique(left[0], right, lk, rk);
      InnerJoinNoFanOut(left[1..], right, lk, rk);
    }
  }

  /** The left column of joined pairs. */
  function Lefts<L, R>(ps: seq<(L, R)>): (r: seq<L>)
    ensures |r| == |ps| && forall i :: 0 <= i < |ps| ==> r[i] == ps[i].0
  {
    seq(|ps|, i requires 0 <= i < |ps| => ps[i].0)
  }

  /** The right column of joined pairs. */
  function Rights<L, R>(ps: seq<(L, R)>): (r: seq<R>)
    ensures |r| == |ps| && forall i :: 0 <= i < |ps| ==> r[i] == ps[i].1
  {
    seq(|ps|, i requires 0 <= i < |ps| => ps[i].1)
  }

  lemma LeftsAppend<L, R>(a: seq<(L, R)>, b: seq<(L, R)>)
    ensures Lefts(a + b) == Lefts(a) + Lefts(b)
  {
  }

  lemma RightsAppend<L, R>(a: seq<(L, R)>, b: seq<(L, R)>)
    ensures Rights(a + b) == Rights(a) + Rights(b)
  {
  }

  /** The matches of one left row are the right rows with its key, one pair
      each, in the order of `right`. */
  lemma {:induction false} MatchesOfInOrder<L(!new), R(!new)>(l: L, right: seq<R>, lk: L -> int, rk: R -> int, p: R -> bool)
    requires forall y :: p(y) == (rk(y) == lk(l))
    ensures Rights(MatchesOf(l, right, lk, rk)) == Select(right, p)
    ensures forall i :: 0 <= i < |MatchesOf(l, right, lk, rk)| ==> MatchesOf(l, right, lk, rk)[i].0 == l
  {
    if right != [] {
      MatchesOfInOrder(l, right[1..], lk, rk, p);
      var head: seq<(L, R)> := if rk(right[0]) == lk(l) then [(l, right[0])] else [];
      RightsAppend(head, MatchesOf(l, right[1..], lk, rk));
    }
  }

  /** With distinct keys on the right, the merge keeps, in their order, the
      left rows that have a match, each exactly once: no row is repeated and
      none is reordered. */
  lemma {:induction false} InnerJoinInOrder<L(!new), R(!new)>(left: seq<L>, right: seq<R>, lk: L -> int, rk: R -> int, p: L -> bool)
    requires forall i, j :: 0 <= i < j < |right| ==> rk(right[i]) != rk(right[j])
    requires forall x :: p(x) == (exists y :: y in right && rk(y) == lk(x))
    ensures Lefts(InnerJoin(left, right, lk, rk)) == Select(left, p)
  {
    if left != [] {
      var l := left[0];
      var m := MatchesOf(l, right, lk, rk);
      InnerJoinInOrder(left[1..], right, lk, rk, p);
      LeftsAppend(m, InnerJoin(left[1..], right, lk, rk));
      MatchesOfUnique(l, right, lk, rk);
      if p(l) {
        var y :| y in right && rk(y) == lk(l);
        assert (l, y) in m;
        assert Lefts(m) == [l];
      } else {
        forall j | 0 <= j < |right|
          ensures rk(right[j]) != lk(l)
        {
          assert right[j] in right;
        }
        NoMatches(l, right, lk, rk);
      }
    }
  }

  /** A key repeated on the right makes the merge fan out: one left row, two
      joined rows. */
  lemma DuplicateKeyFansOut()
    ensures |InnerJoin([7], [7, 7], (l: int) => l, (r: int) => r)| == 2
  {
  }
}
